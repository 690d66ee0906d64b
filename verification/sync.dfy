/** The download-or-skip decision of `download`, with the network and the
    filesystem taken as given: each archive is an entry carrying its local
    name, the remote `Last-Modified` time and the local modification time if
    the local file exists. */
module ArchiveSync {
  import opened Wrappers

  /** A point in time, counted in ticks from the earliest representable
      timestamp (`datetime.min`). */
  type Time = nat

  /** `datetime.min`, the time a missing local file is taken to have. */
  const DatetimeMin: Time := 0

  /** One archive: its local file name, the remote modification time, and
      the local modification time (`None` when the local file is missing). */
  datatype Entry = Entry(name: string, remote: Time, local: Option<Time>)

  /** The local time the comparison uses: a missing file counts as the
      minimum. */
  function LocalTime(e: Entry): Time {
    e.local.GetOr(DatetimeMin)
  }

  /** The remote copy is strictly newer than the local one. */
  predicate Newer(e: Entry) {
    e.remote > LocalTime(e)
  }

  /** What a pass over the entries did: the local names written, in order,
      and whether it returned early at an entry that was not newer. */
  datatype Pass = Pass(written: seq<string>, stopped: bool)

  /** The names of the entries, in order. */
  function Names(es: seq<Entry>): seq<string>
  {
    seq(|es|, j requires 0 <= j < |es| => es[j].name)
  }

  /** The loop of `download` on entries. With `stopAtFirstUnmodified` an
      entry is written only when its remote copy is newer, and the loop
      returns at the first entry that is not; without it every entry is
      written and no time is consulted. The result is the prefix of the
      entries that was written, and in early-stop mode the entry just after
      that prefix, when there is one, is not newer. */
  function Sync(es: seq<Entry>, stopAtFirstUnmodified: bool): (r: Pass)
    ensures |r.written| <= |es|
    ensures r.written == Names(es[..|r.written|])
    ensures stopAtFirstUnmodified ==> forall j :: 0 <= j < |r.written| ==> Newer(es[j])
    ensures r.stopped <==> |r.written| < |es|
    ensures r.stopped ==> stopAtFirstUnmodified && !Newer(es[|r.written|])
    decreases |es|
  {
    if es == [] then Pass([], false)
    else if !stopAtFirstUnmodified || Newer(es[0]) then
      var rest := Sync(es[1..], stopAtFirstUnmodified);
      assert es[..|rest.written| + 1] == [es[0]] + es[1..][..|rest.written|];
      Pass([es[0].name] + rest.written, rest.stopped)
    else
      Pass([], true)
  }

  /** Every entry in `es` is newer. */
  ghost predicate AllNewer(es: seq<Entry>) {
    forall j :: 0 <= j < |es| ==> Newer(es[j])
  }

  /** In early-stop mode the written entries are exactly the longest prefix
      of entries that are all newer: that prefix is newer, and every prefix
      that is all newer is no longer. */
  lemma SyncWritesLongestNewerPrefix(es: seq<Entry>, k: nat)
    requires k <= |es| && AllNewer(es[..k])
    ensures AllNewer(es[..|Sync(es, true).written|])
    ensures k <= |Sync(es, true).written|
  {
  }

  /** In early-stop mode, among the entries the loop looks at (those up to
      and including the one it stops at), an entry is written if and only if
      its remote copy is strictly newer than the local one. */
  lemma SyncWritesIffNewer(es: seq<Entry>, j: nat)
    requires j < |es| && j <= |Sync(es, true).written|
    ensures j < |Sync(es, true).written| <==> Newer(es[j])
  {
  }

  /** A missing local file counts as the minimum time, so its archive is
      written whenever the remote time is above that minimum. */
  lemma MissingLocalIsStale(name: string, remote: Time)
    ensures Newer(Entry(name, remote, None)) <==> remote > DatetimeMin
  {
  }

  /** Once the loop stops, nothing after the entry it stopped at is looked
      at: replacing everything after it leaves the pass unchanged. */
  lemma {:induction false} SyncIgnoresRest(es: seq<Entry>, rest: seq<Entry>)
    requires Sync(es, true).stopped
    ensures var n := |Sync(es, true).written|;
            Sync(es[..n + 1] + rest, true) == Sync(es, true)
    decreases |es|
  {
    var n := |Sync(es, true).written|;
    if n > 0 {
      assert Newer(es[0]);
      SyncIgnoresRest(es[1..], rest);
      assert (es[..n + 1] + rest)[1..] == es[1..][..n] + rest;
    } else {
      assert (es[..1] + rest)[0] == es[0];
    }
  }

  /** Without early stop every entry is written, in order, and the times
      play no part: entries with the same names give the same pass. */
  lemma {:induction false} SyncAllIgnoresTimes(es: seq<Entry>, other: seq<Entry>)
    requires Names(other) == Names(es)
    ensures Sync(es, false) == Pass(Names(es), false)
    ensures Sync(other, false) == Sync(es, false)
    decreases |es|
  {
    if es != [] {
      assert Names(other[1..]) == Names(es[1..]) by {
        assert forall j :: 0 <= j < |es| - 1 ==> Names(es)[j + 1] == es[1..][j].name;
      }
      SyncAllIgnoresTimes(es[1..], other[1..]);
      assert Names(es) == [es[0].name] + Names(es[1..]);
    } else {
      assert |other| == |Names(other)| == 0;
    }
  }

  /** An unchanged first archive followed by changed ones: only the first
      is looked at, nothing is written and the loop stops there. */
  lemma StopAtUnchangedFirst(a: Entry, b: Entry, c: Entry)
    requires !Newer(a) && Newer(b) && Newer(c)
    ensures Sync([a, b, c], true) == Pass([], true)
    ensures Sync([a, b, c], false).written == [a.name, b.name, c.name]
  {
    SyncAllIgnoresTimes([a, b, c], [a, b, c]);
  }
}
