# wikilinktester: the link-handling core, in Dafny

wikilinktester crawls the Go wiki on GitHub. Each link is handled once per key.
Wiki pages on `github.com` are fetched with GET, whatever their scheme. Other
http(s) links are checked with HEAD. `_history` links and all remaining links are
not fetched. The handler for HTML responses (wikilinktester.go:63-69) prints the
responses whose status starts with `40` or `50`; the wiki-page handler
(wikilinktester.go:49-59) parses links and tests no status.

This project models the part that decides, for each link on a fetched page, whether
and how that link is fetched next:

- `strings.dfy` (module `Strings`): the functions of Go's `strings` package the
  core uses. These are `Contains`, `HasPrefix`, and `Replace` with a count of one
  (`ReplaceOne`). The core never calls `Index` itself; `Replace` uses it to find
  the occurrence it replaces, so it is modelled as the search `Replace` relies on.
- `links.dfy` (module `Links`): the pure part.
  - A resolved URL (`Url`) and the result of resolving one anchor (`Link`).
  - The deduplication key (`Key`): the URL string with the first occurrence of
    `"#" + fragment` removed.
  - The classification rule (`Emit`). Rules are tried in this order: a URL whose
    string contains `_history` is skipped; a URL on host `github.com` whose path
    contains `/golang/go/wiki` gets a GET of its key; any other `http`/`https` URL
    gets a HEAD of its full string; anything else is dropped.
  - `Outcome`: the commands a page's links send against a table of seen keys.
    Lemmas prove that at most one command is sent per key, that every command has
    a justifying link, that every eligible link sends its command, and that
    resolution failures are ignored.
- `crawler.dfy` (module `Crawler`): class `Crawler` with the fields the source
  mutates.
  - `seen` is the global duplicates table.
  - `queue` holds the commands sent to the fetch queue.
  - `EnqueueLinks` handles the links of one page as one atomic step, because the
    source holds its lock for the whole call. The class invariant `Valid` says
    that no key ever lets two commands through in a run.
- `status.dfy` (module `Status`): the broken-status test applied to HTML
  responses.

The model follows the code as written, including these details:

- The `_history` test looks at the whole URL string, not only the path.
- The wiki test is "the path contains `/golang/go/wiki`", not a prefix test. The
  host is fixed to `github.com`.
- The code has no HEAD-then-GET escalation. The handler for HTML responses only
  prints broken statuses. So nothing sends a GET after a HEAD.
- The broken-status test is a prefix test on the status line, `"40"` or `"50"`.
  So only codes 400-409 and 500-509 are reported (`Status.BrokenCodes`), not all
  of 4xx and 5xx.
- A link is marked seen before it is classified. So skipped and non-HTTP links
  are recorded too.
- The seed is marked seen under its raw string, not under its key.

## Model

| member | source | states |
|---|---|---|
| `Strings.Index` | wikilinktester.go:108 | the result is -1 exactly when the pattern occurs nowhere; otherwise it is the leftmost offset at which the pattern occurs |
| `Strings.Contains` | wikilinktester.go:113-115 | true exactly when the pattern occurs at some offset of the string |
| `Strings.ReplaceOne` | wikilinktester.go:108 | with no occurrence the string is unchanged; otherwise only the leftmost occurrence is replaced (when the pattern equals the replacement this gives the string back, as Go returns it unchanged), and the length changes by the difference of the two lengths |
| `Links.Key` | wikilinktester.go:108 | the key is the URL string itself when `"#" + fragment` does not occur in it, and otherwise shorter than it by the length of the fragment plus one; which part is cut is stated by `Links.KeyCutsFirstOccurrence` |
| `Links.KeyCutsFirstOccurrence` | wikilinktester.go:108 | the key is the URL string when `"#" + fragment` does not occur in it; otherwise the key is the URL string with exactly the first occurrence of `"#" + fragment` cut out |
| `Links.TrailingFragmentStripped` | wikilinktester.go:108 | a URL whose string is a `#`-free base plus its fragment (if any) has that base as its key |
| `Links.PercentFragmentKey` | wikilinktester.go:108-119 | for a `#`-free base, a URL with fragment `%` written as `base#%25` has key `base25`, and as a non-history wiki page it sends a GET of `base25` |
| `Links.FragmentVariantsShareKey` | wikilinktester.go:108-111 | two URLs whose strings are the same `#`-free base followed by their own fragment, written unescaped, both have the base as key, so only one of them can pass the seen check; fragments Go writes escaped can give different keys (`Links.PercentFragmentSplitsKey`, `Links.EscapedFragmentKept`) |
| `Links.PercentFragmentSplitsKey` | wikilinktester.go:108-111 | the URL `base` without fragment and the URL `base#%25` with fragment `%` get different keys, so both pass the seen check |
| `Links.EscapedFragmentKept` | wikilinktester.go:108 | for a `#`-free base, a URL with fragment `a b`, written `base#a%20b`, keeps its whole string as key, because `#a b` does not occur in it |
| `Links.Emit` | wikilinktester.go:113-126 | a URL containing `_history` sends nothing, even on a wiki path; a GET is sent exactly for non-history wiki pages, and its target is the key; a HEAD is sent exactly for the remaining http/https URLs, and its target is the full URL string; everything else sends nothing |
| `Links.KeysOf` | wikilinktester.go:110-111 | the keys a page marks as seen include the key of every resolved link, whatever its classification |
| `Links.KeysOfOnlyResolved` | wikilinktester.go:103-111 | every key a page marks comes from one of its resolved links, so `KeysOf` is exactly the keys of the resolved links |
| `Links.Step` | wikilinktester.go:103-128 | one anchor sends at most one command; it sends one exactly when it resolved, its key is not yet seen and the rules do not drop it, and then the command is the one the rules give, filed under its key |
| `Links.Outcome` | wikilinktester.go:100-129 | a page sends at most one command per anchor; its meaning in document order is stated by `Links.OutcomeSound`, `Links.OutcomeComplete`, `Links.OutcomeDistinct` and `Links.OutcomeFresh` |
| `Links.OutcomeFresh` | wikilinktester.go:110-111 | every key that sends a command was not in the seen table beforehand, and belongs to a resolved link of the page |
| `Links.OutcomeDistinct` | wikilinktester.go:110-111 | within one page no key sends two commands, however many anchors carry it |
| `Links.OutcomeSound` | wikilinktester.go:100-126 | every command sent comes from a resolved link whose key was new at that point in document order, and is the command the rules give that link |
| `Links.OutcomeComplete` | wikilinktester.go:100-126 | every resolved link whose key is new at its point in document order, and which the rules do not drop, sends its command |
| `Links.SkipUnresolvedKeys` | wikilinktester.go:103-107 | an href that fails to resolve adds no key to the seen table |
| `Links.SkipUnresolved` | wikilinktester.go:103-107 | an href that fails to resolve leaves the commands sent as if the anchor were absent (the seen keys: `Links.SkipUnresolvedKeys`); the later anchors are still processed |
| `Links.SeenLinksSendNothing` | wikilinktester.go:110 | links whose keys are all seen send no command; so a page processed a second time sends nothing |
| `Crawler.Crawler.constructor` | wikilinktester.go:75-79 | the crawl starts with only the seed in the seen table and one GET of the seed in the queue |
| `Crawler.Crawler.EnqueueLinks` | wikilinktester.go:97-130 | after a page, the seen table is the old table plus the key of every resolved link, whatever its classification, so no entry is removed; the queue grows by exactly the page's `Outcome`; the invariant "at most one command per key in the run" is kept |
| `Crawler.Crawler.HandleLink` | wikilinktester.go:101-128 | one anchor adds its key to the seen table (nothing if it failed to resolve) and sends at most the command `Step` gives it; a key already seen sends nothing and leaves the table unchanged |
| `Strings.HasPrefix` | wikilinktester.go:66 | true exactly when the prefix is no longer than the string and agrees with it character by character |
| `Status.IsBroken` | wikilinktester.go:66 | a status is broken exactly when its second character is `0` and its first is `4` or `5` |
| `Status.BrokenCodes` | wikilinktester.go:66 | for a status line with a three-digit code, the test reports exactly the codes 400-409 and 500-509 |

## Left out

- Startup plumbing: opening the log file, parsing the seed, printing, and waiting for
  the queue to drain (wikilinktester.go:24-38, 70-83). This is I/O. Only the seed's
  pre-marking and its GET are modelled. The HEAD sent at line 76 carries no URL and
  queues nothing.
- The fetchbot mux registration and dispatch (wikilinktester.go:40-69). Which
  handler fires depends on fetchbot's matching rules, and fetchbot is not part of
  this model. Only the status test of line 66 is modelled.
- `logHandler` (wikilinktester.go:88-95): it only forwards to the wrapped handler.
- HTML parsing, anchor selection and href resolution (goquery and `url.Parse`).
  These are library calls. Their result is the input sequence of `Link` values, in
  document order.
- `Url.str`, the string form Go's `URL.String()` gives a URL, is taken as an input,
  and Go's escaping rules for it are not modelled. Go writes the fragment in escaped
  form, while the key cuts the unescaped `"#" + fragment`. The key keeps the fragment
  whenever that text does not occur in the string (`Links.KeyCutsFirstOccurrence`
  states this case; `Links.EscapedFragmentKept` gives the example `#a%20b`). When the unescaped fragment is a prefix of its escaped form,
  something else is cut: the href `Foo#%25` has fragment `%` and string `…Foo#%25`,
  so `#%` is removed and the key is `…Foo25`, which a wiki link then fetches with
  GET (`Links.PercentFragmentKey`).
- The mutex (wikilinktester.go:18, 98-99): concurrency. The lock is held for a whole
  `enqueueLinks` call, so each call is one atomic method here.
- Errors returned by `SendStringGet` and `SendStringHead`: they only cause a print.
  A command counts as sent once it is handed to the queue.
- Strings are sequences of characters. Go's byte offsets are not told apart from
  character offsets. The slicing done here does not depend on the difference.
