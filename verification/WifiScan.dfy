/** Scan-list normalisation of main/wifi_manager/wifi_manager.c: in-place stable sort, then in-place compaction. */
module WifiScan {
  type Byte = b: int | 0 <= b < 256

  /** One network; the SSID is the text before its terminator. */
  datatype Entry = Entry(ssid: seq<Byte>, rssi: int, isOpen: bool, isUnsupported: bool)

  type Entries = seq<Entry>

  // Specification: strongest first, equal strengths in their old order.

  function Insert(xs: Entries, e: Entry): Entries {
    if xs == [] then [e]
    else if xs[|xs| - 1].rssi < e.rssi then Insert(xs[..|xs| - 1], e) + [xs[|xs| - 1]]
    else xs + [e]
  }

  function StableSort(xs: Entries): Entries {
    if xs == [] then [] else Insert(StableSort(xs[..|xs| - 1]), xs[|xs| - 1])
  }

  ghost predicate IsStrongestFirst(xs: Entries) {
    forall i, j :: 0 <= i < j < |xs| ==> xs[i].rssi >= xs[j].rssi
  }

  function WithStrength(xs: Entries, rssi: int): Entries {
    if xs == [] then []
    else WithStrength(xs[..|xs| - 1], rssi) + if xs[|xs| - 1].rssi == rssi then [xs[|xs| - 1]] else []
  }

  predicate HasSsid(xs: Entries, ssid: seq<Byte>) {
    exists k :: 0 <= k < |xs| && xs[k].ssid == ssid
  }

  /** Entries kept of the first `n`: named, not seen before, at most `max`. */
  function Kept(xs: Entries, n: nat, max: nat): Entries
    requires n <= |xs|
  {
    if n == 0 then [] else Extend(Kept(xs, n - 1, max), xs[n - 1], max)
  }

  function Extend(kept: Entries, e: Entry, max: nat): Entries {
    if |kept| < max && e.ssid != [] && !HasSsid(kept, e.ssid) then kept + [e] else kept
  }

  // The sort.

  lemma {:induction false} InsertKeeps(xs: Entries, e: Entry)
    ensures |Insert(xs, e)| == |xs| + 1 && multiset(Insert(xs, e)) == multiset(xs) + multiset{e}
  {
    if xs != [] && xs[|xs| - 1].rssi < e.rssi {
      InsertKeeps(xs[..|xs| - 1], e);
      assert xs == xs[..|xs| - 1] + [xs[|xs| - 1]];
    }
  }

  lemma {:induction false} InsertSorted(xs: Entries, e: Entry)
    requires IsStrongestFirst(xs)
    ensures IsStrongestFirst(Insert(xs, e))
    ensures forall k :: 0 <= k < |Insert(xs, e)| ==> Insert(xs, e)[k] == e || Insert(xs, e)[k] in xs
  {
    if xs != [] && xs[|xs| - 1].rssi < e.rssi {
      InsertSorted(xs[..|xs| - 1], e);
    }
  }

  lemma WithStrengthSnoc(xs: Entries, e: Entry, rssi: int)
    ensures WithStrength(xs + [e], rssi) == WithStrength(xs, rssi) + if e.rssi == rssi then [e] else []
  {
    assert (xs + [e])[..|xs|] == xs;
  }

  lemma {:induction false} InsertStable(xs: Entries, e: Entry, rssi: int)
    requires IsStrongestFirst(xs)
    ensures WithStrength(Insert(xs, e), rssi) == WithStrength(xs, rssi) + if e.rssi == rssi then [e] else []
  {
    if xs == [] {
      WithStrengthSnoc([], e, rssi);
      assert [] + [e] == [e];
    } else if xs[|xs| - 1].rssi < e.rssi {
      var init, last := xs[..|xs| - 1], xs[|xs| - 1];
      InsertStable(init, e, rssi);
      assert xs == init + [last] && Insert(xs, e) == Insert(init, e) + [last];
      hide Insert; hide WithStrength; hide IsStrongestFirst;
      WithStrengthSnoc(init, last, rssi);
      WithStrengthSnoc(Insert(init, e), last, rssi);
    } else {
      WithStrengthSnoc(xs, e, rssi);
    }
  }

  /** The sort is a permutation, strongest first, and keeps the old order among equal strengths. */
  lemma {:induction false} StableSortIsStable(xs: Entries, rssi: int)
    ensures multiset(StableSort(xs)) == multiset(xs) && |StableSort(xs)| == |xs|
    ensures IsStrongestFirst(StableSort(xs))
    ensures WithStrength(StableSort(xs), rssi) == WithStrength(xs, rssi)
  {
    if xs != [] {
      var init, last := xs[..|xs| - 1], xs[|xs| - 1];
      StableSortIsStable(init, rssi);
      assert xs == init + [last];
      InsertKeeps(StableSort(init), last);
      InsertSorted(StableSort(init), last);
      InsertStable(StableSort(init), last, rssi);
    }
  }

  // The compaction.

  lemma {:induction false} KeptMembers(xs: Entries, n: nat, max: nat)
    requires n <= |xs|
    ensures |Kept(xs, n, max)| <= n && |Kept(xs, n, max)| <= max
    ensures forall e <- Kept(xs, n, max) :: e in xs[..n] && e.ssid != []
  {
    if n > 0 {
      KeptMembers(xs, n - 1, max);
      assert xs[..n] == xs[..n - 1] + [xs[n - 1]];
    }
  }

  ghost predicate AreDistinct(xs: Entries) {
    forall j, k :: 0 <= j < k < |xs| ==> xs[j].ssid != xs[k].ssid
  }

  lemma {:induction false} KeptDistinct(xs: Entries, n: nat, max: nat)
    requires n <= |xs|
    ensures AreDistinct(Kept(xs, n, max))
  {
    if n > 0 {
      KeptDistinct(xs, n - 1, max);
    }
  }

  lemma {:induction false} KeptSorted(xs: Entries, n: nat, max: nat)
    requires n <= |xs| && IsStrongestFirst(xs)
    ensures IsStrongestFirst(Kept(xs, n, max))
  {
    if n > 0 {
      KeptSorted(xs, n - 1, max);
      KeptMembers(xs, n - 1, max);
      var kept, last := Kept(xs, n - 1, max), xs[n - 1];
      forall k | 0 <= k < |kept| ensures kept[k].rssi >= last.rssi {
        var j :| 0 <= j < n - 1 && xs[j] == kept[k];
      }
    }
  }

  lemma KeptFrom(xs: Entries, n: nat, max: nat)
    requires n <= |xs|
    ensures |Kept(xs, n, max)| <= n && |Kept(xs, n, max)| <= max
    ensures forall k :: 0 <= k < |Kept(xs, n, max)| ==> Kept(xs, n, max)[k] in xs[..n] && Kept(xs, n, max)[k].ssid != []
    ensures AreDistinct(Kept(xs, n, max))
    ensures IsStrongestFirst(xs) ==> IsStrongestFirst(Kept(xs, n, max))
  {
    hide Kept; hide AreDistinct; hide IsStrongestFirst;
    KeptMembers(xs, n, max);
    KeptDistinct(xs, n, max);
    if IsStrongestFirst(xs) {
      KeptSorted(xs, n, max);
    }
  }

  /** With the bound the list is cut, nothing else. */
  lemma {:induction false} KeptIsPrefix(xs: Entries, n: nat, max: nat)
    requires n <= |xs|
    ensures Kept(xs, n, max) == FirstOf(Kept(xs, n, |xs|), max)
  {
    hide Extend; hide FirstOf;
    if n > 0 {
      KeptIsPrefix(xs, n - 1, max);
      KeptMembers(xs, n - 1, |xs|);
      PrefixExtends(Kept(xs, n - 1, |xs|), xs[n - 1], max, |xs|);
    } else {
      NothingKept(max);
    }
  }

  function FirstOf(xs: Entries, max: nat): Entries { if |xs| <= max then xs else xs[..max] }

  lemma NothingKept(max: nat)
    ensures FirstOf([], max) == []
  {
  }

  lemma PrefixExtends(all: Entries, e: Entry, max: nat, limit: nat)
    requires |all| < limit
    ensures Extend(FirstOf(all, max), e, max) == FirstOf(Extend(all, e, limit), max)
  {
    hide HasSsid;
    if |all| >= max {
      assert (all + [e])[..max] == all[..max];
      assert all[..|all|] == all;
    }
  }

  /** Every named network is represented, by an entry at least as strong. */
  lemma {:induction false} KeptRepresents(xs: Entries, n: nat, i: nat) returns (k: nat)
    requires IsStrongestFirst(xs) && i < n <= |xs| && xs[i].ssid != []
    ensures k < |Kept(xs, n, |xs|)| && Kept(xs, n, |xs|)[k].ssid == xs[i].ssid
        && Kept(xs, n, |xs|)[k].rssi >= xs[i].rssi
  {
    var before := Kept(xs, n - 1, |xs|);
    KeptMembers(xs, n - 1, |xs|);
    assert Kept(xs, n, |xs|) == Extend(before, xs[n - 1], |xs|);
    hide Kept;
    if i < n - 1 {
      k := KeptRepresents(xs, n - 1, i);
    } else if HasSsid(before, xs[i].ssid) {
      k :| 0 <= k < |before| && before[k].ssid == xs[i].ssid;
      var j :| 0 <= j < n - 1 && xs[j] == before[k];
    } else {
      k := |before|;
    }
  }

  /** The list that must be left in the array. */
  function Normalized(xs: Entries, max: nat): Entries {
    var sorted := StableSort(xs);
    Kept(sorted, |sorted|, max)
  }

  /**
   * What the normalised list is: entries of the scan, named, strongest first, one per SSID; and unless the bound cut
   * it, every named network of the scan is there, represented by its strongest entry.
   */
  lemma NormalizedIsBest(xs: Entries, max: nat)
    ensures var r := Normalized(xs, max);
      && |r| <= max && IsStrongestFirst(r)
      && (forall k :: 0 <= k < |r| ==> r[k] in xs && r[k].ssid != [])
      && AreDistinct(r)
      && (forall e <- xs :: e.ssid != [] ==> IsRepresented(r, max, e))
  {
    hide StableSort; hide Kept; hide IsRepresented; hide IsStrongestFirst;
    var sorted := StableSort(xs);
    StableSortIsStable(xs, 0);
    KeptFrom(sorted, |sorted|, max);
    SortMembers(xs);
    assert sorted[..|sorted|] == sorted;
    forall e | e in xs && e.ssid != [] ensures IsRepresented(Normalized(xs, max), max, e) {
      var i :| 0 <= i < |sorted| && sorted[i] == e;
      KeptRepresented(sorted, max, i);
    }
  }

  lemma SortMembers(xs: Entries)
    ensures forall e :: e in StableSort(xs) <==> e in xs
  {
    StableSortIsStable(xs, 0);
    forall e ensures e in StableSort(xs) <==> e in xs {
      assert e in multiset(StableSort(xs)) <==> e in multiset(xs);
    }
  }

  lemma KeptRepresented(xs: Entries, max: nat, i: nat)
    requires IsStrongestFirst(xs) && i < |xs| && xs[i].ssid != []
    ensures IsRepresented(Kept(xs, |xs|, max), max, xs[i])
  {
    hide Kept;
    var k := KeptRepresents(xs, |xs|, i);
    var all := Kept(xs, |xs|, |xs|);
    KeptIsPrefix(xs, |xs|, max);
    KeptFrom(xs, |xs|, |xs|);
    var r := Kept(xs, |xs|, max);
    if k < |r| {
      assert r[k] == all[k];
    } else {
      assert |r| == max && forall j :: 0 <= j < |r| ==> r[j] == all[j] && all[j].rssi >= all[k].rssi;
    }
  }

  /**
   * `e`'s network is in the list by an entry at least as strong, or the full list holds only entries at least as
   * strong.
   */
  ghost predicate IsRepresented(r: Entries, max: nat, e: Entry) {
    || (exists k :: 0 <= k < |r| && r[k].ssid == e.ssid && r[k].rssi >= e.rssi)
    || (|r| == max && forall k :: 0 <= k < |r| ==> r[k].rssi >= e.rssi)
  }

  // The in-place algorithm.

  lemma {:induction false} InsertSplit(xs: Entries, position: nat, e: Entry)
    requires position <= |xs| && (forall k :: position <= k < |xs| ==> xs[k].rssi < e.rssi)
    requires position == 0 || xs[position - 1].rssi >= e.rssi
    ensures Insert(xs, e) == xs[..position] + [e] + xs[position..]
  {
    if position < |xs| {
      InsertSplit(xs[..|xs| - 1], position, e);
      assert xs[position..] == xs[..|xs| - 1][position..] + [xs[|xs| - 1]];
    } else {
      assert xs[..position] == xs;
    }
  }

  /** Moves entry `index` to its place in the sorted prefix before it. */
  method InsertEntry(a: array<Entry>, index: nat)
    requires index < a.Length
    modifies a
    ensures a[..index + 1] == Insert(old(a[..index]), old(a[index]))
    ensures forall k :: index < k < a.Length ==> a[k] == old(a[k])
  {
    ghost var before := a[..index];
    var current := a[index];
    var position := index;
    while position > 0 && a[position - 1].rssi < current.rssi
      invariant 0 <= position <= index
      invariant forall k :: 0 <= k < position ==> a[k] == before[k]
      invariant forall k :: position < k <= index ==> a[k] == before[k - 1]
      invariant forall k :: position <= k < index ==> before[k].rssi < current.rssi
      invariant forall k :: index < k < a.Length ==> a[k] == old(a[k])
    {
      a[position] := a[position - 1];
      position := position - 1;
    }
    a[position] := current;
    InsertSplit(before, position, current);
    IsSplice(a[..index + 1], before, position, current);
  }

  lemma IsSplice(after: Entries, before: Entries, position: nat, e: Entry)
    requires |after| == |before| + 1 && position <= |before| && after[position] == e
    requires forall k :: 0 <= k < position ==> after[k] == before[k]
    requires forall k :: position < k < |after| ==> after[k] == before[k - 1]
    ensures after == before[..position] + [e] + before[position..]
  {
  }

  method SortEntries(a: array<Entry>, count: nat)
    requires count <= a.Length
    modifies a
    ensures a[..count] == StableSort(old(a[..count]))
    ensures forall k :: count <= k < a.Length ==> a[k] == old(a[k])
  {
    ghost var start := a[..];
    SortOne(start);
    var index := 1;
    while index < count
      invariant count > 0 ==> index <= count && a[..index] == StableSort(start[..index])
      invariant forall k :: index <= k < a.Length ==> a[k] == start[k]
      invariant count == 0 ==> a[..] == start
    {
      hide Insert; hide StableSort;
      SortNext(start, index);
      InsertEntry(a, index);
      index := index + 1;
    }
    assert start[..count] == old(a[..count]);
  }

  lemma SortOne(xs: Entries)
    ensures StableSort(xs[..0]) == [] && (xs != [] ==> StableSort(xs[..1]) == xs[..1])
  {
    if xs != [] {
      assert xs[..1][..0] == [];
    }
  }

  lemma SortNext(xs: Entries, index: nat)
    requires index < |xs|
    ensures StableSort(xs[..index + 1]) == Insert(StableSort(xs[..index]), xs[index])
  {
    assert xs[..index + 1][..index] == xs[..index];
  }

  /** Second pass: move every entry worth keeping down over the ones that are not. */
  method CompactEntries(a: array<Entry>, count: nat, maxEntries: nat) returns (kept: nat)
    requires count <= a.Length
    modifies a
    ensures kept <= count && a[..kept] == Kept(old(a[..count]), count, maxEntries)
    ensures forall k :: count <= k < a.Length ==> a[k] == old(a[k])
  {
    ghost var sorted := a[..count];
    kept := 0;
    var index := 0;
    while index < count && kept < maxEntries
      invariant kept <= index <= count && kept <= maxEntries
      invariant a[..kept] == Kept(sorted, index, maxEntries)
      invariant forall k :: index <= k < count ==> a[k] == sorted[k]
      invariant forall k :: count <= k < a.Length ==> a[k] == old(a[k])
    {
      hide HasSsid;
      ghost var before := a[..kept];
      if a[index].ssid != [] {
        var isDuplicate := FindSsid(a, kept, a[index].ssid);
        if !isDuplicate {
          a[kept] := a[index];
          kept := kept + 1;
          assert a[..kept] == before + [sorted[index]];
        }
      }
      index := index + 1;
    }
    KeptFull(sorted, index, count, maxEntries);
  }

  method NormalizeWifiScanEntries(a: array<Entry>, count: nat, maxEntries: nat) returns (kept: nat)
    requires count <= a.Length
    modifies a
    ensures kept <= count && a[..kept] == Normalized(old(a[..count]), maxEntries)
    ensures forall k :: count <= k < a.Length ==> a[k] == old(a[k])
  {
    StableSortIsStable(a[..count], 0);
    SortEntries(a, count);
    kept := CompactEntries(a, count, maxEntries);
  }

  lemma {:induction false} KeptFull(xs: Entries, i: nat, n: nat, max: nat)
    requires i <= n <= |xs| && (i == n || |Kept(xs, i, max)| >= max)
    ensures Kept(xs, n, max) == Kept(xs, i, max)
    decreases n
  {
    if i < n {
      KeptFull(xs, i, n - 1, max);
    }
  }

  method FindSsid(a: array<Entry>, kept: nat, ssid: seq<Byte>) returns (found: bool)
    requires kept <= a.Length
    ensures found <==> HasSsid(a[..kept], ssid)
  {
    found := false;
    var seen := 0;
    while seen < kept && !found
      invariant seen <= kept
      invariant found <==> exists k :: 0 <= k < seen && a[..kept][k].ssid == ssid
    {
      found := a[seen].ssid == ssid;
      assert a[..kept][seen] == a[seen];
      seen := seen + 1;
    }
  }
}
