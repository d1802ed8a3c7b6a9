/** The link-handling core of the wiki link checker: the deduplication key of a
    resolved link, the rule that decides which fetch command (if any) a newly
    seen link produces, and the commands a page's links produce against a
    table of already-seen keys. */
module Links {
  import opened Strings

  datatype Option<T> = None | Some(value: T)

  /** The two request kinds the crawler sends to the fetch queue. */
  datatype Method = Get | Head

  /** A fetch command as handed to the queue: a method and a raw URL string. */
  datatype Command = Command(verb: Method, target: string)

  /** A resolved URL: the components the link checker inspects and `str`, the
      URL's string form (Go's `URL.String()`), which is taken as given. */
  datatype Url = Url(scheme: string, host: string, path: string, fragment: string, str: string)

  /** One anchor's `href` after resolution against the page URL: either the
      resolved URL or a resolution failure. */
  datatype Link = Resolved(url: Url) | Unresolved(href: string)

  /** A command together with the deduplication key that let it through. */
  datatype Sent = Sent(key: string, command: Command)

  const WikiHost := "github.com"
  const WikiPath := "/golang/go/wiki"
  const HistoryMarker := "_history"

  /** The deduplication key: the URL string with the leftmost occurrence of
      `"#" + fragment` removed, and nothing else changed. */
  function Key(u: Url): (k: string)
    ensures !Contains(u.str, "#" + u.fragment) ==> k == u.str
    ensures Contains(u.str, "#" + u.fragment) ==> |k| == |u.str| - |u.fragment| - 1
  {
    ReplaceOne(u.str, "#" + u.fragment, "")
  }

  /** The key is the URL string when `"#" + fragment` does not occur in it,
      and otherwise the URL string with exactly the leftmost occurrence cut out. */
  lemma KeyCutsFirstOccurrence(u: Url)
    ensures !Contains(u.str, "#" + u.fragment) ==> Key(u) == u.str
    ensures Contains(u.str, "#" + u.fragment) ==>
              |Key(u)| == |u.str| - |u.fragment| - 1 &&
              exists i :: FirstOccurrence(u.str, "#" + u.fragment, i) &&
                          Key(u) == u.str[..i] + u.str[i + |u.fragment| + 1..]
  {
  }

  /** The string form Go gives a URL whose string without fragment is `base`:
      the fragment is appended after a `#` only when it is not empty. */
  function WithFragment(base: string, fragment: string): string {
    if fragment == "" then base else base + "#" + fragment
  }

  /** When the only `#` before the pattern is the pattern's own first
      character, removing the pattern's first occurrence cuts exactly there. */
  lemma CutAfterBase(s: string, base: string, pat: string, rest: string)
    requires '#' !in base && |pat| > 0 && pat[0] == '#'
    requires s == base + pat + rest
    ensures ReplaceOne(s, pat, "") == base + rest
  {
    FirstAfterBase(s, base, pat, rest);
    assert s[..|base|] == base;
    assert s[|base| + |pat|..] == rest;
  }

  lemma FirstAfterBase(s: string, base: string, pat: string, rest: string)
    requires '#' !in base && |pat| > 0 && pat[0] == '#'
    requires s == base + pat + rest
    ensures Index(s, pat) == |base|
  {
    forall j | 0 <= j < |base| ensures !OccursAt(s, pat, j) {
      assert s[j] == base[j] != pat[0];
    }
    assert s[|base|..|base| + |pat|] == pat;
    assert OccursAt(s, pat, |base|);
  }

  /** A URL rendered as `base` plus its fragment has key `base`, provided the
      rest of the URL holds no `#` (Go escapes it outside the fragment). */
  lemma TrailingFragmentStripped(u: Url, base: string)
    requires '#' !in base
    requires u.str == WithFragment(base, u.fragment)
    ensures Key(u) == base
  {
    var pat := "#" + u.fragment;
    if u.fragment == "" {
      forall j | 0 <= j < |u.str| ensures !OccursAt(u.str, pat, j) {
        assert u.str[j] == base[j] != pat[0];
      }
    } else {
      CutAfterBase(u.str, base, pat, "");
      assert base + pat + "" == u.str;
    }
  }

  /** A fragment that ends in `%` is written back escaped (`%` becomes `%25`),
      so `"#" + fragment` still matches the start of the escaped fragment: the
      key keeps the escape's tail, and a wiki link is fetched under that
      altered URL. */
  lemma PercentFragmentKey(u: Url, base: string)
    requires '#' !in base
    requires u.fragment == "%" && u.str == base + "#%25"
    ensures Key(u) == base + "25"
    ensures !IsHistory(u) && IsWikiPage(u) ==> Emit(u) == Some(Command(Get, base + "25"))
  {
    assert "#%25" == "#" + u.fragment + "25";
    CutAfterBase(u.str, base, "#" + u.fragment, "25");
  }

  /** Two URLs whose strings are the same `#`-free base followed by their own
      fragment, written unescaped, both have the base as key, so at most one of
      them is ever fetched.  A fragment that is written escaped can give a
      different key (`PercentFragmentKey`, `EscapedFragmentKept`). */
  lemma FragmentVariantsShareKey(u: Url, v: Url, base: string)
    requires '#' !in base
    requires u.str == WithFragment(base, u.fragment)
    requires v.str == WithFragment(base, v.fragment)
    ensures Key(u) == Key(v) == base
  {
    TrailingFragmentStripped(u, base);
    TrailingFragmentStripped(v, base);
  }

  /** The URL without fragment and the one with fragment `%` (written `#%25`)
      get different keys, so both pass the seen check. */
  lemma PercentFragmentSplitsKey(u: Url, v: Url, base: string)
    requires '#' !in base
    requires u.fragment == "" && u.str == base
    requires v.fragment == "%" && v.str == base + "#%25"
    ensures Key(u) != Key(v)
  {
    TrailingFragmentStripped(u, base);
    PercentFragmentKey(v, base);
    assert |Key(v)| == |base| + 2;
  }

  /** A fragment that Go escapes, such as `a b` written `#a%20b`, is not found
      in the URL string, so the key keeps the whole fragment. */
  lemma EscapedFragmentKept(u: Url, base: string)
    requires '#' !in base
    requires u.fragment == "a b" && u.str == base + "#a%20b"
    ensures Key(u) == u.str
  {
    var rest, pat := "#a%20b", "#" + u.fragment;
    assert rest[1..] == "a%20b";
    assert rest[2] != pat[2];
    NotFoundAfterBase(u.str, base, rest, pat);
  }

  /** A pattern starting with `#` that is not a prefix of `rest`, where `rest`
      has its only `#` in front, does not occur in `base + rest`. */
  lemma NotFoundAfterBase(s: string, base: string, rest: string, pat: string)
    requires '#' !in base && |rest| > 0 && '#' !in rest[1..] && |pat| > 0 && pat[0] == '#'
    requires s == base + rest && !HasPrefix(rest, pat)
    ensures forall j :: !OccursAt(s, pat, j)
  {
    forall j | 0 <= j < |s| ensures !OccursAt(s, pat, j) {
      if j < |base| {
        assert s[j] == base[j] != pat[0];
      } else if j == |base| {
        assert s[j..] == rest;
      } else {
        assert s[j] == rest[1..][j - |base| - 1] != pat[0];
      }
    }
  }

  /** The `_history` test looks at the whole URL string. */
  predicate IsHistory(u: Url) {
    Contains(u.str, HistoryMarker)
  }

  /** A page of the wiki: the host is the wiki's and the path contains the
      wiki's path anywhere (not only as a prefix). */
  predicate IsWikiPage(u: Url) {
    u.host == WikiHost && Contains(u.path, WikiPath)
  }

  predicate IsHttp(u: Url) {
    u.scheme == "http" || u.scheme == "https"
  }

  /** The command a link with a not-yet-seen key produces, rules tried in
      order: history pages are skipped, wiki pages are crawled with a GET of
      their key, other http(s) links are checked with a HEAD of the full URL
      string (fragment included), anything else is dropped. */
  function Emit(u: Url): (c: Option<Command>)
    ensures IsHistory(u) ==> c == None
    ensures (c.Some? && c.value.verb == Get) <==> !IsHistory(u) && IsWikiPage(u)
    ensures (c.Some? && c.value.verb == Head) <==> !IsHistory(u) && !IsWikiPage(u) && IsHttp(u)
    ensures c.Some? && c.value.verb == Get ==> c.value.target == Key(u)
    ensures c.Some? && c.value.verb == Head ==> c.value.target == u.str
  {
    if IsHistory(u) then None
    else if IsWikiPage(u) then Some(Command(Get, Key(u)))
    else if IsHttp(u) then Some(Command(Head, u.str))
    else None
  }

  /** The keys a sequence of links marks as seen: one per resolved link. */
  function KeysOf(links: seq<Link>): (k: set<string>)
    ensures forall i :: 0 <= i < |links| && links[i].Resolved? ==> Key(links[i].url) in k
    decreases |links|
  {
    if links == [] then {}
    else KeysOf(links[..|links| - 1]) + LinkKey(links[|links| - 1])
  }

  /** Every key a page marks comes from one of its resolved links. */
  lemma {:induction false} KeysOfOnlyResolved(links: seq<Link>, key: string)
    requires key in KeysOf(links)
    ensures exists i :: 0 <= i < |links| && links[i].Resolved? && Key(links[i].url) == key
    decreases |links|
  {
    var init := links[..|links| - 1];
    if key in KeysOf(init) {
      KeysOfOnlyResolved(init, key);
      var i :| 0 <= i < |init| && init[i].Resolved? && Key(init[i].url) == key;
      assert links[i] == init[i];
    } else {
      assert links[|links| - 1].Resolved? && Key(links[|links| - 1].url) == key;
    }
  }

  function LinkKey(l: Link): set<string> {
    if l.Resolved? then {Key(l.url)} else {}
  }

  /** What one link sends when the keys in `seen` are already taken. */
  function Step(seen: set<string>, l: Link): (r: seq<Sent>)
    ensures |r| <= 1
    ensures r != [] <==> l.Resolved? && Key(l.url) !in seen && Emit(l.url).Some?
    ensures r != [] ==> r[0].key == Key(l.url) && Some(r[0].command) == Emit(l.url)
  {
    match l
    case Unresolved(_) => []
    case Resolved(u) =>
      if Key(u) in seen then []
      else match Emit(u)
        case None => []
        case Some(c) => [Sent(Key(u), c)]
  }

  /** What a page's links send, in document order, starting from `seen`; each
      link sees the keys of the links before it. */
  function Outcome(seen: set<string>, links: seq<Link>): (r: seq<Sent>)
    ensures |r| <= |links|
    decreases |links|
  {
    if links == [] then []
    else
      var init := links[..|links| - 1];
      Outcome(seen, init) + Step(seen + KeysOf(init), links[|links| - 1])
  }

  /** The commands of a sequence of sends, in order. */
  function Commands(sent: seq<Sent>): seq<Command> {
    seq(|sent|, i requires 0 <= i < |sent| => sent[i].command)
  }

  lemma CommandsAppend(a: seq<Sent>, b: seq<Sent>)
    ensures Commands(a + b) == Commands(a) + Commands(b)
  {
    assert |Commands(a + b)| == |Commands(a) + Commands(b)|;
    forall i | 0 <= i < |a| + |b| ensures Commands(a + b)[i] == (Commands(a) + Commands(b))[i] {
      if i < |a| { assert (a + b)[i] == a[i]; } else { assert (a + b)[i] == b[i - |a|]; }
    }
  }

  /** Every key that sends a command was not seen before and belongs to a
      resolved link of the page. */
  lemma {:induction false} OutcomeFresh(seen: set<string>, links: seq<Link>)
    ensures forall j :: 0 <= j < |Outcome(seen, links)| ==>
              Outcome(seen, links)[j].key !in seen && Outcome(seen, links)[j].key in KeysOf(links)
    decreases |links|
  {
    if links != [] {
      var init := links[..|links| - 1];
      OutcomeFresh(seen, init);
    }
  }

  /** No key sends two commands, however often it appears on the page. */
  lemma {:induction false} OutcomeDistinct(seen: set<string>, links: seq<Link>)
    ensures forall i, j :: 0 <= i < j < |Outcome(seen, links)| ==>
              Outcome(seen, links)[i].key != Outcome(seen, links)[j].key
    decreases |links|
  {
    if links != [] {
      var init := links[..|links| - 1];
      OutcomeDistinct(seen, init);
      OutcomeFresh(seen, init);
    }
  }

  /** `s` is what the rules send for link `i` of the page, whose key was
      neither in `seen` nor among the keys of the links before it. */
  predicate SentFor(seen: set<string>, links: seq<Link>, s: Sent, i: int) {
    0 <= i < |links| && links[i].Resolved? &&
    s.key == Key(links[i].url) &&
    s.key !in seen + KeysOf(links[..i]) &&
    Emit(links[i].url) == Some(s.command)
  }

  /** Every command sent comes from a resolved link whose key had not been
      seen before it, and is the command the rules give that link. */
  lemma {:induction false} OutcomeSound(seen: set<string>, links: seq<Link>, j: int)
    requires 0 <= j < |Outcome(seen, links)|
    ensures exists i :: SentFor(seen, links, Outcome(seen, links)[j], i)
    decreases |links|
  {
    var init, l := links[..|links| - 1], links[|links| - 1];
    var o, last := Outcome(seen, init), Step(seen + KeysOf(init), l);
    var all := Outcome(seen, links);
    assert all == o + last;
    if j < |o| {
      OutcomeSound(seen, init, j);
      var i :| SentFor(seen, init, o[j], i);
      assert init[..i] == links[..i] && links[i] == init[i];
      assert all[j] == o[j];
      assert SentFor(seen, links, all[j], i);
    } else {
      var i := |links| - 1;
      assert links[..i] == init;
      assert all[j] == last[0];
      assert SentFor(seen, links, all[j], i);
    }
  }

  /** Every resolved link whose key is new, to `seen` and to the links before
      it, sends the command the rules give it. */
  lemma {:induction false} OutcomeComplete(seen: set<string>, links: seq<Link>, i: int)
    requires 0 <= i < |links| && links[i].Resolved?
    requires Key(links[i].url) !in seen + KeysOf(links[..i])
    requires Emit(links[i].url).Some?
    ensures Sent(Key(links[i].url), Emit(links[i].url).value) in Outcome(seen, links)
    decreases |links|
  {
    var init := links[..|links| - 1];
    if i == |links| - 1 {
      assert links[..i] == init;
    } else {
      assert init[..i] == links[..i];
      OutcomeComplete(seen, init, i);
    }
  }

  /** One more link of a page: the seen keys and the sends of `links[..i]`,
      extended by what `links[i]` adds, are those of `links[..i + 1]`. */
  lemma Advance(seen: set<string>, links: seq<Link>, i: int, keys: set<string>, sent: seq<Sent>)
    requires 0 <= i < |links|
    requires keys == KeysOf(links[..i]) + LinkKey(links[i])
    requires sent == Outcome(seen, links[..i]) + Step(seen + KeysOf(links[..i]), links[i])
    ensures keys == KeysOf(links[..i + 1])
    ensures sent == Outcome(seen, links[..i + 1])
  {
    assert links[..i + 1] == links[..i] + [links[i]];
    Snoc(seen, links[..i], links[i]);
  }

  /** Appending a link to a page appends what that link sends, given the
      keys of the links before it. */
  lemma Snoc(seen: set<string>, init: seq<Link>, l: Link)
    ensures KeysOf(init + [l]) == KeysOf(init) + LinkKey(l)
    ensures Outcome(seen, init + [l]) == Outcome(seen, init) + Step(seen + KeysOf(init), l)
  {
    assert (init + [l])[..|init|] == init;
  }

  lemma SplitLast(a: seq<Link>, b: seq<Link>)
    requires b != []
    ensures a + b == (a + b[..|b| - 1]) + [b[|b| - 1]]
  {
  }

  /** A link that fails to resolve marks no key. */
  lemma {:induction false} SkipUnresolvedKeys(xs: seq<Link>, href: string, ys: seq<Link>)
    ensures KeysOf(xs + [Unresolved(href)] + ys) == KeysOf(xs + ys)
    decreases |ys|
  {
    var u := [Unresolved(href)];
    if ys == [] {
      assert xs + u + ys == xs + u && xs + ys == xs;
      Snoc({}, xs, Unresolved(href));
    } else {
      var ys', last := ys[..|ys| - 1], ys[|ys| - 1];
      SkipUnresolvedKeys(xs, href, ys');
      SplitLast(xs + u, ys);
      SplitLast(xs, ys);
      Snoc({}, xs + u + ys', last);
      Snoc({}, xs + ys', last);
    }
  }

  /** A link that fails to resolve sends nothing and changes nothing for the
      links after it: the page behaves as if the anchor were absent. */
  lemma {:induction false} SkipUnresolved(seen: set<string>, xs: seq<Link>, href: string, ys: seq<Link>)
    ensures Outcome(seen, xs + [Unresolved(href)] + ys) == Outcome(seen, xs + ys)
    decreases |ys|
  {
    var u := [Unresolved(href)];
    if ys == [] {
      assert xs + u + ys == xs + u && xs + ys == xs;
      Snoc(seen, xs, Unresolved(href));
    } else {
      var ys', last := ys[..|ys| - 1], ys[|ys| - 1];
      SkipUnresolved(seen, xs, href, ys');
      SkipUnresolvedKeys(xs, href, ys');
      SplitLast(xs + u, ys);
      SplitLast(xs, ys);
      Snoc(seen, xs + u + ys', last);
      Snoc(seen, xs + ys', last);
    }
  }

  /** Links whose keys are all seen send nothing; in particular a page whose
      links were processed once sends nothing the second time. */
  lemma {:induction false} SeenLinksSendNothing(seen: set<string>, links: seq<Link>)
    requires KeysOf(links) <= seen
    ensures Outcome(seen, links) == []
    decreases |links|
  {
    if links != [] {
      var init := links[..|links| - 1];
      SeenLinksSendNothing(seen, init);
    }
  }
}
