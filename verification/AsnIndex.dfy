/** The bisect index over address ranges (decnet/asn/lookup.py). */
module AsnIndex {
  import opened Cidr
  import opened Common

  datatype Info = Info(asn: int, name: string)
  datatype Range = Range(start: int, end: int, info: Info)

  /** The three parallel lists of `AsnLookup`. */
  datatype Index = Index(starts: seq<int>, ends: seq<int>, infos: seq<Info>)

  /** An argument of `asn`, after `ipaddress` looked at it. */
  datatype Address = Malformed | V6 | V4(n: nat, special: bool)

  datatype Answer = Answer(info: Info, prefix: Option<Block>)

  predicate KeyLess(a: Range, b: Range) {
    a.start < b.start || (a.start == b.start && a.end < b.end)
  }

  predicate Sorted(rs: seq<Range>) {
    forall i, j | 0 <= i < j < |rs| :: !KeyLess(rs[j], rs[i])
  }

  /** `sorted(ranges, key=(start, end))`: stable, so an equal key goes last. */
  function StableSort(rs: seq<Range>): (s: seq<Range>)
    ensures Sorted(s)
  {
    if rs == [] then [] else InsertLast(StableSort(rs[..|rs| - 1]), rs[|rs| - 1])
  }

  function InsertLast(s: seq<Range>, x: Range): (r: seq<Range>)
    requires Sorted(s)
    ensures Sorted(r) && |r| == |s| + 1
    ensures forall i | 0 <= i < |r| :: r[i] == x || r[i] in s
  {
    if s == [] || !KeyLess(x, s[|s| - 1]) then s + [x]
    else InsertLast(s[..|s| - 1], x) + [s[|s| - 1]]
  }

  lemma {:induction false} InsertPermutes(s: seq<Range>, x: Range)
    requires Sorted(s)
    ensures multiset(InsertLast(s, x)) == multiset(s) + multiset{x}
  {
    if s != [] && KeyLess(x, s[|s| - 1]) {
      var less, last := s[..|s| - 1], s[|s| - 1];
      InsertPermutes(less, x);
      assert s == less + [last];
      assert InsertLast(s, x) == InsertLast(less, x) + [last];
    }
  }

  lemma {:induction false} SortPermutes(rs: seq<Range>)
    ensures multiset(StableSort(rs)) == multiset(rs)
  {
    if rs != [] {
      SortPermutes(rs[..|rs| - 1]);
      InsertPermutes(StableSort(rs[..|rs| - 1]), rs[|rs| - 1]);
      assert rs == rs[..|rs| - 1] + [rs[|rs| - 1]];
    }
  }

  // ---------- the reference: one scan over the unsorted input ----------

  /** Whether `r` displaces the best range found so far for address `n`. */
  predicate Displaces(best: Option<Range>, r: Range, n: int) {
    r.start <= n && (best.None? || !KeyLess(r, best.value))
  }

  function Better(best: Option<Range>, r: Range, n: int): Option<Range> {
    if Displaces(best, r, n) then Some(r) else best
  }

  /** Greatest start not above `n`, then greatest end, then latest in the input. */
  function Pick(rs: seq<Range>, n: int): Option<Range> {
    if rs == [] then None else Better(Pick(rs[..|rs| - 1], n), rs[|rs| - 1], n)
  }

  /** The answer that the scan gives: the picked range, if it reaches `n`. */
  function ScanAnswer(rs: seq<Range>, n: int): Option<Range> {
    match Pick(rs, n)
    case Some(r) => if n <= r.end then Some(r) else None
    case None => None
  }

  /** Range `i` is no better than range `k`: an earlier start, or the same start and an earlier end,
      or the same of both and an earlier place. */
  predicate NoBetter(rs: seq<Range>, i: nat, k: nat)
    requires i < |rs| && k < |rs|
  {
    || rs[i].start < rs[k].start
    || (rs[i].start == rs[k].start && rs[i].end < rs[k].end)
    || (rs[i].start == rs[k].start && rs[i].end == rs[k].end && i <= k)
  }

  /** `Pick` is the maximum it is meant to be. */
  lemma {:induction false} PickIsBest(rs: seq<Range>, n: int) returns (k: int)
    ensures -1 <= k < |rs|
    ensures Pick(rs, n) == if k < 0 then None else Some(rs[k])
    ensures k >= 0 ==> rs[k].start <= n
    ensures forall i | 0 <= i < |rs| && rs[i].start <= n :: k >= 0 && NoBetter(rs, i, k)
  {
    if rs == [] {
      k := -1;
    } else {
      var m := |rs| - 1;
      k := PickIsBest(rs[..m], n);
      if Displaces(Pick(rs[..m], n), rs[m], n) { k := m; }
    }
  }

  lemma PickSome(rs: seq<Range>, n: int)
    ensures Pick(rs, n).Some? ==> Pick(rs, n).value in rs && Pick(rs, n).value.start <= n
  {
    var k := PickIsBest(rs, n);
  }

  // ---------- sorting does not matter ----------

  lemma {:induction false} PickInsert(s: seq<Range>, x: Range, n: int)
    requires Sorted(s)
    ensures Pick(InsertLast(s, x), n) == Better(Pick(s, n), x, n)
    decreases |s|
  {
    if s == [] || !KeyLess(x, s[|s| - 1]) {
      assert (s + [x])[..|s|] == s;
    } else {
      var m := |s| - 1;
      var r := InsertLast(s[..m], x);
      assert (r + [s[m]])[..|r|] == r;
      PickInsert(s[..m], x, n);
      PickSome(s[..m], n);
    }
  }

  lemma {:induction false} PickStableSort(rs: seq<Range>, n: int)
    ensures Pick(StableSort(rs), n) == Pick(rs, n)
  {
    if rs != [] {
      var m := |rs| - 1;
      PickStableSort(rs[..m], n);
      PickInsert(StableSort(rs[..m]), rs[m], n);
    }
  }

  // ---------- the index ----------

  predicate WellFormed(ix: Index) {
    && |ix.starts| == |ix.ends| == |ix.infos|
    && forall i, j | 0 <= i < j < |ix.starts| :: ix.starts[i] < ix.starts[j]
  }

  /** The last entry of the index that starts at or before `n`. */
  function Entry(ix: Index, n: int): Option<Range>
    requires WellFormed(ix)
    decreases |ix.starts|
  {
    var m := |ix.starts| - 1;
    if m < 0 then None
    else if ix.starts[m] <= n then Some(Range(ix.starts[m], ix.ends[m], ix.infos[m]))
    else Entry(Index(ix.starts[..m], ix.ends[..m], ix.infos[..m]), n)
  }

  /** `ix` answers as a scan of `s` would, for every address. */
  ghost predicate Indexes(ix: Index, s: seq<Range>) {
    WellFormed(ix) && forall n: int :: Entry(ix, n) == Pick(s, n)
  }

  function LastStart(ix: Index): int
    requires ix.starts != []
  {
    ix.starts[|ix.starts| - 1]
  }

  /** One turn of the loop of `from_ranges`. */
  function Extend(ix: Index, r: Range): Index
    requires WellFormed(ix)
  {
    var m := |ix.starts|;
    if m > 0 && LastStart(ix) == r.start then
      Index(ix.starts, ix.ends[m - 1 := r.end], ix.infos[m - 1 := r.info])
    else
      Index(ix.starts + [r.start], ix.ends + [r.end], ix.infos + [r.info])
  }

  lemma PickAppend(s: seq<Range>, r: Range, n: int)
    requires Sorted(s + [r])
    ensures Pick(s + [r], n) == if r.start <= n then Some(r) else Pick(s, n)
  {
    assert (s + [r])[..|s|] == s;
    PickSome(s, n);
    if Pick(s, n).Some? {
      var i :| 0 <= i < |s| && s[i] == Pick(s, n).value;
      assert (s + [r])[i] == s[i] && (s + [r])[|s|] == r;
    }
  }

  lemma IndexesExtend(ix: Index, s: seq<Range>, r: Range)
    requires Indexes(ix, s) && Sorted(s + [r])
    requires ix.starts != [] ==> LastStart(ix) <= r.start
    ensures Indexes(Extend(ix, r), s + [r])
  {
    forall n: int ensures Entry(Extend(ix, r), n) == Pick(s + [r], n) {
      PickAppend(s, r, n);
    }
  }

  lemma IndexesUnsorted(ix: Index, rs: seq<Range>)
    requires Indexes(ix, StableSort(rs))
    ensures Indexes(ix, rs)
  {
    forall n: int ensures Entry(ix, n) == Pick(rs, n) { PickStableSort(rs, n); }
  }

  /** `ix` indexes the first `i` of the sorted ranges and ends with the last of them. */
  ghost predicate Done(ix: Index, sorted: seq<Range>, i: nat)
    requires i <= |sorted|
  {
    Indexes(ix, sorted[..i]) && (ix.starts != [] ==> i > 0 && LastStart(ix) == sorted[i - 1].start)
  }

  lemma DoneNext(ix: Index, sorted: seq<Range>, i: nat)
    requires Sorted(sorted) && i < |sorted| && Done(ix, sorted, i)
    ensures Done(Extend(ix, sorted[i]), sorted, i + 1)
  {
    assert sorted[..i + 1] == sorted[..i] + [sorted[i]];
    IndexesExtend(ix, sorted[..i], sorted[i]);
  }

  method FromRanges(ranges: seq<Range>) returns (ix: Index)
    ensures Indexes(ix, ranges)
  {
    var sorted := StableSort(ranges);
    ix := Index([], [], []);
    for i := 0 to |sorted|
      invariant Done(ix, sorted, i)
    {
      var r := sorted[i];
      var m := |ix.starts|;
      DoneNext(ix, sorted, i);
      if m > 0 && ix.starts[m - 1] == r.start {
        ix := Index(ix.starts, ix.ends[m - 1 := r.end], ix.infos[m - 1 := r.info]);
        continue;
      }
      ix := Index(ix.starts + [r.start], ix.ends + [r.end], ix.infos + [r.info]);
    }
    assert sorted[..|sorted|] == sorted;
    IndexesUnsorted(ix, ranges);
  }

  /** `bisect.bisect_right`. */
  method BisectRight(a: seq<int>, x: int) returns (lo: nat)
    requires forall i, j | 0 <= i < j < |a| :: a[i] < a[j]
    ensures lo <= |a|
    ensures forall i | 0 <= i < lo :: a[i] <= x
    ensures forall i | lo <= i < |a| :: x < a[i]
  {
    lo := 0;
    var hi := |a|;
    while lo < hi
      invariant lo <= hi <= |a|
      invariant forall i | 0 <= i < lo :: a[i] <= x
      invariant forall i | hi <= i < |a| :: x < a[i]
    {
      var mid := (lo + hi) / 2;
      if x < a[mid] { hi := mid; } else { lo := mid + 1; }
    }
  }

  lemma {:induction false} EntryAt(ix: Index, n: int, k: nat)
    requires WellFormed(ix) && k <= |ix.starts|
    requires (forall i | 0 <= i < k :: ix.starts[i] <= n) && (forall i | k <= i < |ix.starts| :: n < ix.starts[i])
    ensures Entry(ix, n) == if k == 0 then None else Some(Range(ix.starts[k - 1], ix.ends[k - 1], ix.infos[k - 1]))
    decreases |ix.starts|
  {
    var m := |ix.starts| - 1;
    if m >= 0 && n < ix.starts[m] {
      EntryAt(Index(ix.starts[..m], ix.ends[..m], ix.infos[..m]), n, k);
    }
  }

  /** The prefix that goes with an answer: the largest aligned block around `n` in the range. */
  ghost predicate PrefixOk(prefix: Option<Block>, r: Range, n: nat) {
    && (prefix.Some? <==> 0 <= r.start <= n <= r.end <= ALL_ONES)
    && (prefix.Some? ==> Largest(prefix.value, r.start, r.end, n))
  }

  /** The range that answers for an address, found by scanning the input. */
  function Lookup(ranges: seq<Range>, addr: Address): (r: Option<Range>)
    ensures r.Some? ==> addr.V4?
  {
    if addr.V4? && !addr.special then ScanAnswer(ranges, addr.n) else None
  }

  /** `asn` on an index built from `ranges` answers as the scan of `ranges` does. */
  method Asn(ix: Index, addr: Address, ghost ranges: seq<Range>) returns (r: Option<Answer>)
    requires Indexes(ix, ranges)
    ensures match Lookup(ranges, addr)
            case None => r == None
            case Some(range) => r.Some? && r.value.info == range.info && PrefixOk(r.value.prefix, range, addr.n)
  {
    if !addr.V4? || addr.special { return None; }
    var n := addr.n;
    var k := BisectRight(ix.starts, n);
    EntryAt(ix, n, k);
    if k == 0 { return None; }
    if n <= ix.ends[k - 1] {
      var prefix := SynthesizePrefix(ix.starts[k - 1], ix.ends[k - 1], n);
      return Some(Answer(ix.infos[k - 1], prefix));
    }
    return None;
  }

  // ---------- against plain membership ----------

  predicate Contains(r: Range, n: int) {
    r.start <= n <= r.end
  }

  /** Linear membership: the first range that contains `n`. */
  function Scan(rs: seq<Range>, n: int): (r: Option<Range>)
    ensures r.Some? ==> r.value in rs && Contains(r.value, n)
    ensures r.None? ==> forall x | x in rs :: !Contains(x, n)
  {
    if rs == [] then None
    else if Contains(rs[0], n) then Some(rs[0])
    else Scan(rs[1..], n)
  }

  predicate Disjoint(rs: seq<Range>) {
    && (forall i | 0 <= i < |rs| :: rs[i].start <= rs[i].end)
    && (forall i, j | 0 <= i < j < |rs| :: rs[i].end < rs[j].start || rs[j].end < rs[i].start)
  }

  /** On non-empty, pairwise disjoint ranges the index agrees with membership. */
  lemma DisjointRefinesScan(rs: seq<Range>, n: int)
    requires Disjoint(rs)
    ensures ScanAnswer(rs, n) == Scan(rs, n)
  {
    var k := PickIsBest(rs, n);
    if Scan(rs, n).Some? {
      var i :| 0 <= i < |rs| && rs[i] == Scan(rs, n).value;
      assert k >= 0 && rs[k].start >= rs[i].start;
      assert k == i;
    } else if k >= 0 {
      assert rs[k] in rs;
    }
  }

  predicate Covered(rs: seq<Range>, n: int) {
    exists r | r in rs :: Contains(r, n)
  }

  /** Address `n` lies in range `i`, but range `k`, the furthest-reaching with its start, starts
      between the start of `i` and `n`, ends before `n`, and is the last to start before `n`. */
  predicate HidesAt(rs: seq<Range>, i: nat, k: nat, n: int)
    requires i < |rs| && k < |rs|
  {
    && rs[i].start < rs[k].start <= n && rs[k].end < n <= rs[i].end
    && forall j | 0 <= j < |rs| && rs[k].start <= rs[j].start <= n ::
         rs[j].start == rs[k].start && rs[j].end <= rs[k].end
  }

  predicate Hidden(rs: seq<Range>, n: int) {
    exists i: nat, k: nat | i < |rs| && k < |rs| :: HidesAt(rs, i, k, n)
  }

  /** For ranges that may overlap: a covered address gets no answer exactly when it is hidden. */
  lemma LostIffHidden(rs: seq<Range>, n: int)
    ensures Covered(rs, n) && ScanAnswer(rs, n).None? <==> Hidden(rs, n)
    ensures ScanAnswer(rs, n).Some? ==> Covered(rs, n)
  {
    var best := PickIsBest(rs, n);
    if ScanAnswer(rs, n).Some? { assert rs[best] in rs && Contains(rs[best], n); }
    if Covered(rs, n) && ScanAnswer(rs, n).None? {
      var r :| r in rs && Contains(r, n);
      var i: nat :| i < |rs| && rs[i] == r;
      assert rs[best].end < n && !KeyLess(rs[best], rs[i]);
      assert HidesAt(rs, i, best, n);
    }
    if i: nat, k: nat :| i < |rs| && k < |rs| && HidesAt(rs, i, k, n) {
      assert rs[i] in rs && Contains(rs[i], n);
      assert rs[best].start == rs[k].start;
    }
  }

  /** When `asn` is documented to give nothing. */
  predicate DocumentedNone(rs: seq<Range>, addr: Address) {
    !addr.V4? || addr.special || !Covered(rs, addr.n)
  }

  /** It gives nothing exactly then, and also for an ordinary address that is hidden. */
  lemma RefusesIff(rs: seq<Range>, addr: Address)
    ensures Lookup(rs, addr).None? <==> DocumentedNone(rs, addr) || (addr.V4? && !addr.special && Hidden(rs, addr.n))
    ensures addr.V4? && Hidden(rs, addr.n) ==> Covered(rs, addr.n)
  {
    if addr.V4? { LostIffHidden(rs, addr.n); }
  }

  /** Whichever addresses are special: the documentation is met on every address exactly when no
      ordinary one is hidden. */
  lemma RefusesAsDocumentedIff(rs: seq<Range>, special: nat -> bool)
    ensures (forall n: nat :: Lookup(rs, V4(n, special(n))).None? <==> DocumentedNone(rs, V4(n, special(n))))
            <==> forall n: nat | !special(n) :: !Hidden(rs, n)
  {
    forall n: nat
      ensures (Lookup(rs, V4(n, special(n))).None? <==> DocumentedNone(rs, V4(n, special(n))))
              <==> special(n) || !Hidden(rs, n)
    {
      RefusesIff(rs, V4(n, special(n)));
    }
  }

  /** A narrow range inside a wide one: 8.0.0.50 lies in the wide one and gets no answer. */
  lemma NarrowHidesWide(wide: Info, narrow: Info)
    ensures var rs := [Range(0x0800_0000, 0x0800_0064, wide), Range(0x0800_000A, 0x0800_0014, narrow)];
            var addr := V4(0x0800_0032, false);
            Lookup(rs, addr).None? && !DocumentedNone(rs, addr)
  {
    var rs := [Range(0x0800_0000, 0x0800_0064, wide), Range(0x0800_000A, 0x0800_0014, narrow)];
    assert HidesAt(rs, 0, 1, 0x0800_0032);
    LostIffHidden(rs, 0x0800_0032);
  }

  /** What answers for an ordinary address: the best of the ranges that start at or before it, and
      only if it reaches the address. */
  lemma AnswerIsBest(rs: seq<Range>, n: nat, k: nat)
    requires k < |rs| && rs[k].start <= n
    requires forall i | 0 <= i < |rs| && rs[i].start <= n :: NoBetter(rs, i, k)
    ensures Lookup(rs, V4(n, false)) == if n <= rs[k].end then Some(rs[k]) else None
  {
    var best := PickIsBest(rs, n);
    assert NoBetter(rs, k, best) && NoBetter(rs, best, k);
  }

  /** On disjoint ranges it is the one that contains the address. */
  lemma DisjointAnswer(rs: seq<Range>, n: nat, k: nat)
    requires Disjoint(rs) && k < |rs| && rs[k].start <= n <= rs[k].end
    ensures Lookup(rs, V4(n, false)) == Some(rs[k])
  {
    DisjointRefinesScan(rs, n);
    assert Contains(rs[k], n);
    var i :| 0 <= i < |rs| && rs[i] == Scan(rs, n).value;
    assert i == k;
  }

  // ---------- the documented tie-break ----------

  /** "On identical starts, last writer wins": ends play no part. */
  function LastWriter(rs: seq<Range>, n: int): Option<Range> {
    if rs == [] then None
    else
      var best, r := LastWriter(rs[..|rs| - 1], n), rs[|rs| - 1];
      if r.start <= n && (best.None? || best.value.start <= r.start) then Some(r) else best
  }

  lemma {:induction false} LastWriterIsLast(rs: seq<Range>, n: int) returns (k: int)
    ensures -1 <= k < |rs|
    ensures LastWriter(rs, n) == if k < 0 then None else Some(rs[k])
    ensures k >= 0 ==> rs[k].start <= n
    ensures forall i | 0 <= i < |rs| && rs[i].start <= n ::
              k >= 0 && (rs[i].start < rs[k].start || (rs[i].start == rs[k].start && i <= k))
  {
    if rs == [] {
      k := -1;
    } else {
      var m := |rs| - 1;
      k := LastWriterIsLast(rs[..m], n);
      if rs[m].start <= n && (k < 0 || rs[k].start <= rs[m].start) { k := m; }
    }
  }

  predicate IsLastOfStart(rs: seq<Range>, j: nat)
    requires j < |rs|
  {
    forall i | j < i < |rs| :: rs[i].start != rs[j].start
  }

  /** In every group of equal starts, the last range written also reaches furthest. */
  predicate LastReachesFurthest(rs: seq<Range>) {
    forall i, j | 0 <= i < j < |rs| && rs[i].start == rs[j].start && IsLastOfStart(rs, j) ::
      rs[i].end <= rs[j].end
  }

  /** The code sorts ends too, so the documented rule holds exactly for such inputs. */
  lemma LastWriterWinsIff(rs: seq<Range>)
    ensures (forall n: int :: Pick(rs, n) == LastWriter(rs, n)) <==> LastReachesFurthest(rs)
  {
    if LastReachesFurthest(rs) {
      forall n: int ensures Pick(rs, n) == LastWriter(rs, n) {
        var k := PickIsBest(rs, n);
        var l := LastWriterIsLast(rs, n);
        if k >= 0 { assert IsLastOfStart(rs, l); }
      }
    } else {
      var i, j :| 0 <= i < j < |rs| && rs[i].start == rs[j].start && IsLastOfStart(rs, j) && rs[i].end > rs[j].end;
      var n := rs[i].start;
      var k := PickIsBest(rs, n);
      var l := LastWriterIsLast(rs, n);
      assert l == j;
      assert Pick(rs, n) != LastWriter(rs, n);
    }
  }

  /** Two ranges with one start: the wider one, written first, stays. */
  lemma WiderRangeStays(wide: Info, narrow: Info)
    ensures var rs := [Range(0, 9, wide), Range(0, 5, narrow)];
            Pick(rs, 0) == Some(rs[0]) && LastWriter(rs, 0) == Some(rs[1])
  {
    var rs := [Range(0, 9, wide), Range(0, 5, narrow)];
    var k := PickIsBest(rs, 0);
    var l := LastWriterIsLast(rs, 0);
    assert rs[0].start <= 0 && rs[1].start <= 0;
  }
}
