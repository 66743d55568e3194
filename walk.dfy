/**
 * The directory walk both scans share: `WalkDir` yields the readable entries in
 * order, and each scan keeps, in that order, whatever its per-entry step yields.
 */
module Walk {
  import opened Wrappers

  /** One file found by the walk: its path and its text, or none when reading failed. */
  datatype Entry = Entry(path: string, text: Option<string>)

  /** What a scan keeps from `entries`, in walk order, given what it makes of each entry. */
  function Kept<T>(entries: seq<Entry>, load: Entry -> Option<T>): (r: seq<T>)
    ensures |r| <= |entries|
  {
    if entries == [] then []
    else
      var n := |entries| - 1;
      var init := Kept(entries[..n], load);
      match load(entries[n])
      case None => init
      case Some(x) => init + [x]
  }

  /** One step of the walk: the entry at `i` adds what it yields, if anything, at the end. */
  lemma KeptStep<T>(entries: seq<Entry>, i: nat, load: Entry -> Option<T>)
    requires i < |entries|
    ensures load(entries[i]).None? ==> Kept(entries[..i + 1], load) == Kept(entries[..i], load)
    ensures load(entries[i]).Some? ==> Kept(entries[..i + 1], load) == Kept(entries[..i], load) + [load(entries[i]).value]
  {
    assert entries[..i + 1][..i] == entries[..i];
  }

  /** Every entry that yields something is kept. */
  lemma {:induction false} KeepsEveryYield<T>(entries: seq<Entry>, i: nat, load: Entry -> Option<T>)
    requires i < |entries| && load(entries[i]).Some?
    ensures load(entries[i]).value in Kept(entries, load)
    decreases |entries|
  {
    var n := |entries| - 1;
    var init := Kept(entries[..n], load);
    assert entries[..n + 1] == entries;
    KeptStep(entries, n, load);
    if i < n {
      assert entries[..n][i] == entries[i];
      KeepsEveryYield(entries[..n], i, load);
      assert Kept(entries, load)[..|init|] == init;
    }
  }

  /** Everything kept was yielded by some entry. */
  lemma {:induction false} KeepsNothingElse<T>(entries: seq<Entry>, k: nat, load: Entry -> Option<T>)
    requires k < |Kept(entries, load)|
    ensures exists i :: 0 <= i < |entries| && load(entries[i]) == Some(Kept(entries, load)[k])
    decreases |entries|
  {
    var n := |entries| - 1;
    var x := Kept(entries, load)[k];
    assert entries[..n + 1] == entries;
    KeptStep(entries, n, load);
    if k < |Kept(entries[..n], load)| {
      KeepsNothingElse(entries[..n], k, load);
      var i :| 0 <= i < n && load(entries[..n][i]) == Some(x);
      assert entries[i] == entries[..n][i];
    } else {
      assert load(entries[n]) == Some(x);
    }
  }

  /** An entry that yields nothing changes nothing: the scan goes on as if it were absent. */
  lemma SkippedEntryChangesNothing<T>(entries: seq<Entry>, e: Entry, load: Entry -> Option<T>)
    requires load(e).None?
    ensures Kept(entries + [e], load) == Kept(entries, load)
  {
    assert (entries + [e])[..|entries|] == entries;
  }
}
