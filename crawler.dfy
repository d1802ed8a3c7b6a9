/** The crawler's shared state: the table of seen deduplication keys and the
    fetch queue the commands go to.  One call of `EnqueueLinks` handles the
    links of one fetched wiki page; the source holds one lock for the whole
    call, so each call is one atomic step here. */
module Crawler {
  import opened Strings
  import opened Links

  /** The URL the crawl starts from. */
  const Seed := "http://github.com/golang/go/wiki"

  class Crawler {
    /** The keys already seen; entries are only ever added. */
    var seen: set<string>
    /** Every command sent to the fetch queue, in order. */
    var queue: seq<Command>
    /** Each queued command with the key that let it through. */
    ghost var log: seq<Sent>

    /** The queue is the log's commands, every logged key is seen, and no key
        was ever let through twice: at most one command per key in a run. */
    ghost predicate Valid()
      reads this
    {
      queue == Commands(log) &&
      (forall i :: 0 <= i < |log| ==> log[i].key in seen) &&
      (forall i, j :: 0 <= i < j < |log| ==> log[i].key != log[j].key)
    }

    /** Start of the crawl: the seed is marked seen, then a GET for it is
        queued.  (The HEAD sent before it carries no URL and queues nothing.) */
    constructor ()
      ensures Valid()
      ensures seen == {Seed}
      ensures queue == [Command(Get, Seed)]
      ensures log == [Sent(Seed, Command(Get, Seed))]
    {
      seen := {Seed};
      queue := [Command(Get, Seed)];
      log := [Sent(Seed, Command(Get, Seed))];
    }

    /** Handles the links of one page in document order. */
    method EnqueueLinks(links: seq<Link>)
      requires Valid()
      modifies this
      ensures Valid()
      ensures seen == old(seen) + KeysOf(links)
      ensures log == old(log) + Outcome(old(seen), links)
      ensures queue == old(queue) + Commands(Outcome(old(seen), links))
    {
      ghost var seen0, log0, queue0 := seen, log, queue;
      for i := 0 to |links|
        invariant Valid()
        invariant seen == seen0 + KeysOf(links[..i])
        invariant log == log0 + Outcome(seen0, links[..i])
      {
        ghost var keys, sent := KeysOf(links[..i]), Outcome(seen0, links[..i]);
        HandleLink(links[i]);
        assert seen == seen0 + (keys + LinkKey(links[i]));
        assert log == log0 + (sent + Step(seen0 + keys, links[i]));
        Advance(seen0, links, i, keys + LinkKey(links[i]), sent + Step(seen0 + keys, links[i]));
      }
      assert links[..|links|] == links;
      assert queue == Commands(log0 + Outcome(seen0, links));
      CommandsAppend(log0, Outcome(seen0, links));
    }

    /** Handles one anchor: a link that failed to resolve is skipped;
        otherwise its key is looked up, and if new it is marked seen and the
        link is classified. */
    method HandleLink(l: Link)
      requires Valid()
      modifies this
      ensures Valid()
      ensures seen == old(seen) + LinkKey(l)
      ensures log == old(log) + Step(old(seen), l)
      ensures l.Resolved? && Key(l.url) in old(seen) ==> seen == old(seen) && queue == old(queue)
    {
      match l
      case Unresolved(_) =>
      case Resolved(u) =>
        var key := ReplaceOne(u.str, "#" + u.fragment, "");
        assert key == Key(u);
        if key !in seen {
          seen := seen + {key};
          if Contains(u.str, HistoryMarker) {
            assert Emit(u) == None;
          } else if u.host == WikiHost && Contains(u.path, WikiPath) {
            assert Emit(u) == Some(Command(Get, key));
            CommandsAppend(log, [Sent(key, Command(Get, key))]);
            queue := queue + [Command(Get, key)];
            log := log + [Sent(key, Command(Get, key))];
          } else if u.scheme == "http" || u.scheme == "https" {
            assert Emit(u) == Some(Command(Head, u.str));
            CommandsAppend(log, [Sent(key, Command(Head, u.str))]);
            queue := queue + [Command(Head, u.str)];
            log := log + [Sent(key, Command(Head, u.str))];
          } else {
            assert Emit(u) == None;
          }
        }
    }
  }
}
