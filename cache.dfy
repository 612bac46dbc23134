/**
 * The download cache (source.go, `downloadCache` with `LoadOrStore` and
 * `sync.OnceValues`).
 *
 * The process-wide map goes from a cache key (a source url, or the path of
 * the inline rule-data file) to the `(path, error)` pair its producer returned.
 * The first lookup of a key runs the producer and stores its pair, failure or
 * not; every later lookup of that key gets the stored pair and runs nothing.
 * Only this sequential outcome is modelled: callers blocking on a producer
 * that is still running are not.
 */
module Cache {
  import opened Wrappers

  /** An error value returned by a collaborator; its text is all the model keeps. */
  datatype Error = Error(message: string)

  /** What a producer returns: a local path and an optional error. */
  datatype Resolved = Resolved(path: string, err: Option<Error>)

  /** The outcome of one lookup: the pair handed back, whether the producer ran, the map after. */
  datatype Lookup = Lookup(value: Resolved, ran: bool, entries: map<string, Resolved>)

  /** One lookup of `key` whose producer would return `made` if it ran. */
  function Memo(entries: map<string, Resolved>, key: string, made: Resolved): (r: Lookup)
    ensures r.ran <==> key !in entries
    ensures key in r.entries && r.value == r.entries[key]
    ensures key !in entries ==> r.value == made
    ensures r.entries.Keys == entries.Keys + {key}
    ensures forall k | k in entries :: r.entries[k] == entries[k]
  {
    if key in entries then Lookup(entries[key], false, entries)
    else Lookup(made, true, entries[key := made])
  }

  /** A lookup request: the key and what its producer would make. */
  datatype Request = Request(key: string, made: Resolved)

  /** A run of lookups one after another, each seeing the map the previous one left. */
  function Serve(entries: map<string, Resolved>, reqs: seq<Request>): (outs: seq<Lookup>)
    ensures |outs| == |reqs|
    decreases |reqs|
  {
    if reqs == [] then []
    else
      var first := Memo(entries, reqs[0].key, reqs[0].made);
      [first] + Serve(first.entries, reqs[1..])
  }

  /** Looking a key up again right away changes nothing and returns the same pair. */
  lemma MemoTwice(entries: map<string, Resolved>, key: string, made1: Resolved, made2: Resolved)
    ensures var first := Memo(entries, key, made1);
            Memo(first.entries, key, made2) == Lookup(first.value, false, first.entries)
  {
  }

  /** Once a key is in the map, every later lookup of it gets the stored pair and runs nothing. */
  lemma {:induction false} ServeKeepsStored(entries: map<string, Resolved>, reqs: seq<Request>, j: nat)
    requires j < |reqs| && reqs[j].key in entries
    ensures Serve(entries, reqs)[j].value == entries[reqs[j].key]
    ensures !Serve(entries, reqs)[j].ran
    decreases |reqs|
  {
    var first := Memo(entries, reqs[0].key, reqs[0].made);
    if j > 0 {
      assert first.entries[reqs[j].key] == entries[reqs[j].key];
      ServeKeepsStored(first.entries, reqs[1..], j - 1);
    }
  }

  /**
   * At most once, same result: a later lookup of a key gets exactly the pair an
   * earlier lookup of it got, errors included, and its producer does not run.
   */
  lemma {:induction false} ServeSameKey(entries: map<string, Resolved>, reqs: seq<Request>, i: nat, j: nat)
    requires i < j < |reqs| && reqs[i].key == reqs[j].key
    ensures Serve(entries, reqs)[j].value == Serve(entries, reqs)[i].value
    ensures !Serve(entries, reqs)[j].ran
    decreases |reqs|
  {
    var first := Memo(entries, reqs[0].key, reqs[0].made);
    if i == 0 {
      ServeKeepsStored(first.entries, reqs[1..], j - 1);
    } else {
      ServeSameKey(first.entries, reqs[1..], i - 1, j - 1);
    }
  }

  /**
   * A producer runs exactly for the first lookup of a key the map did not
   * hold, and then hands back what it produced.
   */
  lemma {:induction false} ServeRunsFirst(entries: map<string, Resolved>, reqs: seq<Request>, j: nat)
    requires j < |reqs|
    ensures Serve(entries, reqs)[j].ran <==>
              reqs[j].key !in entries && forall i | 0 <= i < j :: reqs[i].key != reqs[j].key
    ensures Serve(entries, reqs)[j].ran ==> Serve(entries, reqs)[j].value == reqs[j].made
    decreases |reqs|
  {
    var first := Memo(entries, reqs[0].key, reqs[0].made);
    if j > 0 {
      ServeRunsFirst(first.entries, reqs[1..], j - 1);
      assert forall i | 1 <= i < j :: reqs[1..][i - 1] == reqs[i];
    }
  }

  /** The process-wide cache, as an object whose map the lookups update in place. */
  class DownloadCache {
    var entries: map<string, Resolved>
    /** The keys whose producer has run, in the order they ran. */
    ghost var produced: seq<string>

    /** Every stored key had its producer run exactly once. */
    ghost predicate Valid()
      reads this
    {
      && (forall i, j | 0 <= i < j < |produced| :: produced[i] != produced[j])
      && (forall k :: k in entries <==> k in produced)
    }

    constructor ()
      ensures Valid() && entries == map[] && produced == []
    {
      entries := map[];
      produced := [];
    }

    /** `LoadOrStore` followed by a call of the stored producer. */
    method LoadOrStore(key: string, made: Resolved) returns (value: Resolved, ran: bool)
      requires Valid()
      modifies this
      ensures Valid()
      ensures Lookup(value, ran, entries) == Memo(old(entries), key, made)
      ensures produced == if ran then old(produced) + [key] else old(produced)
    {
      if key in entries {
        value, ran := entries[key], false;
      } else {
        value, ran := made, true;
        entries := entries[key := made];
        produced := produced + [key];
      }
    }
  }
}
