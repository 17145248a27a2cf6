/** The two numberings of a subsystem's atoms: the persistent serials of the
    full model and the dense 0-based indices of the extracted subsystem
    (convert_serial_to_index), and the rewrite of the subsystem's numbering
    column back to the serials (restore_serial_in_model). */
module AtomIndex {
  import opened Wrappers
  import opened Text
  import opened Atoms
  import opened Dicts

  /** Width of the numbering column restore_serial_in_model writes. */
  const SerialWidth: nat := 5

  predicate Ascending(s: seq<int>) {
    forall i, j :: 0 <= i < j < |s| ==> s[i] <= s[j]
  }

  /** x placed before the first element not smaller than it. */
  function Insert(x: int, s: seq<int>): (r: seq<int>)
    ensures |r| == |s| + 1
  {
    if s == [] then [x]
    else if x <= s[0] then [x] + s
    else [s[0]] + Insert(x, s[1..])
  }

  /** Insertion adds x and nothing else. */
  lemma {:induction false} InsertPermutes(x: int, s: seq<int>)
    ensures multiset(Insert(x, s)) == multiset(s) + multiset{x}
  {
    if s != [] && x > s[0] {
      assert s == [s[0]] + s[1..];
      InsertPermutes(x, s[1..]);
    }
  }

  /** Inserting into an ascending sequence keeps it ascending. */
  lemma {:induction false} InsertAscending(x: int, s: seq<int>)
    requires Ascending(s)
    ensures Ascending(Insert(x, s))
  {
    if s != [] && s[0] < x {
      var t := s[1..];
      var rest := Insert(x, t);
      assert s == [s[0]] + t;
      InsertAscending(x, t);
      InsertLowerBound(x, t, s[0]);
      var r := [s[0]] + rest;
      assert Insert(x, s) == r;
      forall i, j | 0 <= i < j < |r| ensures r[i] <= r[j] {
        if i == 0 {
          assert r[j] == rest[j - 1];
        } else {
          assert r[i] == rest[i - 1] && r[j] == rest[j - 1];
        }
      }
    }
  }

  /** A lower bound of x and of every element of s bounds every element of
      Insert(x, s). */
  lemma {:induction false} InsertLowerBound(x: int, s: seq<int>, b: int)
    requires b <= x && forall k :: 0 <= k < |s| ==> b <= s[k]
    ensures forall k :: 0 <= k < |Insert(x, s)| ==> b <= Insert(x, s)[k]
  {
    if s != [] && s[0] < x {
      var t := s[1..];
      assert s == [s[0]] + t;
      InsertLowerBound(x, t, b);
      var r := [s[0]] + Insert(x, t);
      assert Insert(x, s) == r;
      forall k | 0 <= k < |r| ensures b <= r[k] {
        if k > 0 {
          assert r[k] == Insert(x, t)[k - 1];
        }
      }
    }
  }

  /** Python's sorted() on the QM serials: the same serials, ascending. */
  function SortSerials(qm: seq<int>): (r: seq<int>)
    ensures |r| == |qm|
    ensures Ascending(r)
    ensures multiset(r) == multiset(qm)
  {
    if qm == [] then []
    else
      assert qm == [qm[0]] + qm[1..];
      var rest := SortSerials(qm[1..]);
      InsertAscending(qm[0], rest);
      InsertPermutes(qm[0], rest);
      Insert(qm[0], rest)
  }

  lemma SortedMembers(qm: seq<int>)
    ensures forall s :: s in SortSerials(qm) <==> s in qm
  {
    forall s ensures s in SortSerials(qm) <==> s in qm {
      assert s in SortSerials(qm) <==> s in multiset(SortSerials(qm));
      assert s in qm <==> s in multiset(qm);
    }
  }

  /** m is what convert_serial_to_index returns for qm: every QM serial is a
      key, mapped to the position in the sorted serials where the loop last
      wrote it. */
  ghost predicate IsIndexMapOf(qm: seq<int>, m: map<int, int>) {
    var sorted := SortSerials(qm);
    && (forall s :: s in m <==> s in qm)
    && forall s :: s in m ==>
         && 0 <= m[s] < |sorted|
         && sorted[m[s]] == s
         && forall j :: m[s] < j < |sorted| ==> sorted[j] != s
  }

  /** m maps each of the first n elements of s to the last position, below
      n, where it occurs. */
  ghost predicate LastPositions(s: seq<int>, m: map<int, int>, n: nat)
    requires n <= |s|
  {
    && (forall x :: x in m <==> x in s[..n])
    && forall x :: x in m ==>
         && 0 <= m[x] < n
         && s[m[x]] == x
         && forall j :: m[x] < j < n ==> s[j] != x
  }

  lemma LastPositionsStep(s: seq<int>, m: map<int, int>, n: nat)
    requires n < |s| && LastPositions(s, m, n)
    ensures LastPositions(s, m[s[n] := n], n + 1)
  {
    assert s[..n + 1] == s[..n] + [s[n]];
  }

  /** convert_serial_to_index: sorts the QM serials and maps each to its position. */
  method ConvertSerialToIndex(qm: seq<int>) returns (indices: map<int, int>)
    ensures IsIndexMapOf(qm, indices)
  {
    var sorted := SortSerials(qm);
    indices := map[];
    for i := 0 to |sorted|
      invariant LastPositions(sorted, indices, i)
    {
      LastPositionsStep(sorted, indices, i);
      indices := indices[sorted[i] := i];
    }
    assert sorted[..|sorted|] == sorted;
    SortedMembers(qm);
  }

  /** The serials determine the map: convert_serial_to_index has only one
      possible result. */
  lemma IndexMapUnique(qm: seq<int>, m1: map<int, int>, m2: map<int, int>)
    requires IsIndexMapOf(qm, m1) && IsIndexMapOf(qm, m2)
    ensures m1 == m2
  {
    var sorted := SortSerials(qm);
    forall s ensures s in m1 <==> s in m2 {
      assert s in m1 <==> s in qm;
      assert s in m2 <==> s in qm;
    }
    assert m1.Keys == m2.Keys;
    forall s | s in m1 ensures m1[s] == m2[s] {
      assert sorted[m1[s]] == s && sorted[m2[s]] == s;
    }
  }

  /** The serials 5, 2, 9 get the indices 2 -> 0, 5 -> 1, 9 -> 2. */
  lemma ThreeSerialsExample(m: map<int, int>)
    requires IsIndexMapOf([5, 2, 9], m)
    ensures m == map[2 := 0, 5 := 1, 9 := 2]
  {
    ThreeSerialsSorted();
    SortedMembers([5, 2, 9]);
    ThreeIndices(m, SortSerials([5, 2, 9]));
  }

  /** The inverse of that map sends the indices 0, 1, 2 back to 2, 5, 9. */
  lemma ThreeSerialsInverse()
    ensures Injective(map[2 := 0, 5 := 1, 9 := 2])
    ensures InvertMap(map[2 := 0, 5 := 1, 9 := 2]) == map[0 := 2, 1 := 5, 2 := 9]
  {
    var m := map[2 := 0, 5 := 1, 9 := 2];
    var inv := InvertMap(m);
    assert m.Values == {0, 1, 2} by {
      assert m[2] == 0 && m[5] == 1 && m[9] == 2;
    }
    assert inv[0] == 2 && inv[1] == 5 && inv[2] == 9;
  }

  lemma ThreeIndices(m: map<int, int>, sorted: seq<int>)
    requires sorted == [2, 5, 9]
    requires forall s :: s in m <==> s in sorted
    requires forall s :: s in m ==> 0 <= m[s] < |sorted| && sorted[m[s]] == s
    ensures m == map[2 := 0, 5 := 1, 9 := 2]
  {
    forall s ensures s in m <==> s in {2, 5, 9} {
      assert s in sorted <==> s == sorted[0] || s == sorted[1] || s == sorted[2];
    }
    assert m.Keys == {2, 5, 9};
    assert sorted[m[2]] == 2 && sorted[m[5]] == 5 && sorted[m[9]] == 9;
  }

  lemma ThreeSerialsSorted()
    ensures SortSerials([5, 2, 9]) == [2, 5, 9]
  {
    assert [5, 2, 9][1..] == [2, 9] && [2, 9][1..] == [9] && [9][1..] == [];
    assert Insert(2, [9]) == [2, 9];
    assert Insert(5, [9]) == [5, 9];
    assert Insert(5, [2, 9]) == [2] + Insert(5, [9]);
  }

  ghost predicate Injective(m: map<int, int>) {
    forall a, b :: a in m && b in m && a != b ==> m[a] != m[b]
  }

  /** No two QM atoms share a serial. */
  lemma IndexMapIsInjective(qm: seq<int>, m: map<int, int>)
    requires IsIndexMapOf(qm, m)
    ensures Injective(m)
  {
    var sorted := SortSerials(qm);
    forall a, b | a in m && b in m && a != b ensures m[a] != m[b] {
      assert sorted[m[a]] == a && sorted[m[b]] == b;
    }
  }

  lemma {:induction false} InsertDistinct(x: int, s: seq<int>)
    ensures Distinct(Insert(x, s)) <==> Distinct(s) && x !in s
  {
    if s == [] {
    } else if x <= s[0] {
      ConsDistinct(x, s);
    } else {
      var rest := Insert(x, s[1..]);
      InsertDistinct(x, s[1..]);
      ConsDistinct(s[0], rest);
      ConsDistinct(s[0], s[1..]);
      assert s == [s[0]] + s[1..];
      InsertMembers(x, s[1..]);
    }
  }

  lemma {:induction false} InsertMembers(x: int, s: seq<int>)
    ensures forall y :: y in Insert(x, s) <==> y == x || y in s
  {
    if s != [] && x > s[0] {
      assert s == [s[0]] + s[1..];
      InsertMembers(x, s[1..]);
    }
  }

  lemma ConsDistinct(h: int, t: seq<int>)
    ensures Distinct([h] + t) <==> Distinct(t) && h !in t
  {
    var s := [h] + t;
    if Distinct(t) && h !in t {
      forall i, j | 0 <= i < j < |s| ensures s[i] != s[j] {
        if i == 0 { assert s[j] == t[j - 1]; } else { assert s[i] == t[i - 1] && s[j] == t[j - 1]; }
      }
    }
    if Distinct(s) {
      forall i, j | 0 <= i < j < |t| ensures t[i] != t[j] {
        assert t[i] == s[i + 1] && t[j] == s[j + 1];
      }
      forall j | 0 <= j < |t| ensures t[j] != h {
        assert s[0] == h && s[j + 1] == t[j];
      }
    }
  }

  /** Sorting neither creates nor removes duplicate serials. */
  lemma {:induction false} SortedDistinct(qm: seq<int>)
    ensures Distinct(SortSerials(qm)) <==> Distinct(qm)
  {
    if qm != [] {
      var h, t := qm[0], qm[1..];
      var rest := SortSerials(t);
      assert SortSerials(qm) == Insert(h, rest);
      SortedDistinct(t);
      SortedMembers(t);
      InsertKeepsDistinct(h, t, rest);
      assert qm == [h] + t;
    }
  }

  lemma InsertKeepsDistinct(h: int, t: seq<int>, rest: seq<int>)
    requires forall x :: x in rest <==> x in t
    requires Distinct(rest) <==> Distinct(t)
    ensures Distinct(Insert(h, rest)) <==> Distinct([h] + t)
  {
    InsertDistinct(h, rest);
    ConsDistinct(h, t);
  }

  lemma {:induction false} DistinctCard(s: seq<int>)
    requires Distinct(s)
    ensures |set x | x in s| == |s|
  {
    if s != [] {
      var t := s[..|s| - 1];
      assert Distinct(t);
      DistinctCard(t);
      assert (set x | x in s) == (set x | x in t) + {s[|s| - 1]};
      assert s[|s| - 1] !in (set x | x in t);
    }
  }

  /** With no duplicate serials each index is the serial's rank: the number
      of QM serials smaller than it. */
  lemma IndexIsRank(qm: seq<int>, m: map<int, int>)
    requires Distinct(qm) && IsIndexMapOf(qm, m)
    ensures forall s :: s in m ==> m[s] == |set x | x in qm && x < s|
  {
    SortedDistinct(qm);
    SortedMembers(qm);
    var sorted := SortSerials(qm);
    forall s | s in m ensures m[s] == |set x | x in qm && x < s| {
      RankOf(qm, sorted, m[s]);
    }
  }

  /** The p-th smallest of distinct serials has p serials below it. */
  lemma RankOf(qm: seq<int>, sorted: seq<int>, p: nat)
    requires forall s :: s in sorted <==> s in qm
    requires Ascending(sorted) && Distinct(sorted) && p < |sorted|
    ensures |set x | x in qm && x < sorted[p]| == p
  {
    forall x ensures x in qm && x < sorted[p] <==> x in sorted && x < sorted[p] {
    }
    assert (set x | x in qm && x < sorted[p]) == (set x | x in sorted && x < sorted[p]);
    RankInSorted(sorted, p);
    forall i, j | 0 <= i < j < p ensures sorted[..p][i] != sorted[..p][j] {
      assert sorted[..p][i] == sorted[i] && sorted[..p][j] == sorted[j];
    }
    DistinctCard(sorted[..p]);
  }

  /** In an ascending sequence without duplicates, the elements smaller than
      the one at p are those before it. */
  lemma RankInSorted(sorted: seq<int>, p: nat)
    requires Ascending(sorted) && Distinct(sorted) && p < |sorted|
    ensures (set x | x in sorted && x < sorted[p]) == (set x | x in sorted[..p])
  {
    forall x | x in sorted[..p] ensures x in sorted && x < sorted[p] {
      var j :| 0 <= j < p && sorted[..p][j] == x;
      assert sorted[j] <= sorted[p] && sorted[j] != sorted[p];
    }
    forall x | x in sorted && x < sorted[p] ensures x in sorted[..p] {
      var j :| 0 <= j < |sorted| && sorted[j] == x;
      assert j < p;
      assert sorted[..p][j] == x;
    }
  }

  /** The indices are exactly 0 .. |qm|-1 if, and only if, qm holds no
      duplicate serial. */
  lemma IndexValuesDense(qm: seq<int>, m: map<int, int>)
    requires IsIndexMapOf(qm, m)
    ensures (forall i :: i in m.Values <==> 0 <= i < |qm|) <==> Distinct(qm)
  {
    SortedDistinct(qm);
    if Distinct(qm) {
      DistinctIndicesDense(qm, m);
    } else {
      var i := DuplicateLeavesGap(qm, m);
    }
  }

  lemma DistinctIndicesDense(qm: seq<int>, m: map<int, int>)
    requires IsIndexMapOf(qm, m) && Distinct(SortSerials(qm))
    ensures forall i :: i in m.Values <==> 0 <= i < |qm|
  {
    var sorted := SortSerials(qm);
    SortedMembers(qm);
    forall i | 0 <= i < |qm| ensures i in m.Values {
      var s := sorted[i];
      assert s in qm;
      assert s in m;
      var p := m[s];
      assert sorted[p] == s;
      assert p == i;
    }
    forall t | t in m ensures 0 <= m[t] < |qm| {
    }
  }

  /** With a duplicate serial, the position of its first copy in the sorted
      serials is not an index of any serial. */
  lemma DuplicateLeavesGap(qm: seq<int>, m: map<int, int>) returns (gap: int)
    requires IsIndexMapOf(qm, m) && !Distinct(SortSerials(qm))
    ensures 0 <= gap < |qm| && gap !in m.Values
  {
    var sorted := SortSerials(qm);
    var i, j :| 0 <= i < j < |sorted| && sorted[i] == sorted[j];
    gap := i;
    forall t | t in m ensures m[t] != i {
      assert sorted[m[t]] == t;
    }
  }

  /** The dict comprehension {value: key for key, value in serial_to_index.items()}. */
  function InvertMap(m: map<int, int>): (inv: map<int, int>)
    requires Injective(m)
    ensures inv.Keys == m.Values
    ensures forall k :: k in m ==> inv[m[k]] == k
    ensures forall v :: v in inv ==> inv[v] in m && m[inv[v]] == v
  {
    map k | k in m :: m[k] := k
  }

  /** str(serial).rjust(5): the text of a restored numbering column. */
  function PdbSerial(serial: int): string {
    RightJustify(IntToString(serial), SerialWidth)
  }

  /** Reading a restored numbering column with int() gives the serial back. */
  lemma PdbSerialRoundTrip(serial: int)
    ensures ParseInt(PdbSerial(serial)) == Some(serial)
  {
    ParseIntOfJustified(serial, SerialWidth);
  }

  datatype RestoreError =
    | NotAnInteger(serial: string)   // int(atom.serial) raises ValueError
    | MissingIndex(index: int)       // index_to_serial[...] raises KeyError

  /** The serial restore_serial_in_model writes into one atom's numbering
      column (as PdbSerial of it): the serial whose index is the column's
      value minus one. */
  function RestoredSerial(serial: string, inv: map<int, int>): Result<int, RestoreError> {
    match ParseInt(serial)
    case None => Failure(NotAnInteger(serial))
    case Some(pos) =>
      if pos - 1 in inv then Success(inv[pos - 1]) else Failure(MissingIndex(pos - 1))
  }

  /** after is before with the numbering columns of its first f atoms
      restored and every other atom, and every other field, unchanged. */
  ghost predicate RestoredUpTo(before: seq<Atom>, after: seq<Atom>, inv: map<int, int>, f: nat) {
    && |after| == |before| && f <= |before|
    && (forall k :: 0 <= k < f ==>
          RestoredSerial(before[k].serial, inv).Success? &&
          after[k] == before[k].(serial := PdbSerial(RestoredSerial(before[k].serial, inv).value)))
    && (forall k :: f <= k < |before| ==> after[k] == before[k])
  }

  lemma RestoredStep(before: seq<Atom>, after: seq<Atom>, inv: map<int, int>, i: nat)
    requires RestoredUpTo(before, after, inv, i) && i < |before|
    requires RestoredSerial(before[i].serial, inv).Success?
    ensures RestoredUpTo(before, after[i := before[i].(serial := PdbSerial(RestoredSerial(before[i].serial, inv).value))], inv, i + 1)
  {
  }

  /** restore_serial_in_model: rewrites every atom's numbering column in
      place, in atom order; an atom whose column cannot be restored stops the
      loop, leaving the atoms before it rewritten and the rest as they were. */
  method RestoreSerialInModel(atoms: array<Atom>, serialToIndex: map<int, int>) returns (r: Outcome<RestoreError>)
    requires Injective(serialToIndex)
    modifies atoms
    ensures r.Pass? ==> RestoredUpTo(old(atoms[..]), atoms[..], InvertMap(serialToIndex), atoms.Length)
    ensures r.Fail? ==> exists f :: (0 <= f < atoms.Length &&
      RestoredSerial(old(atoms[..])[f].serial, InvertMap(serialToIndex)) == Failure(r.error) &&
      RestoredUpTo(old(atoms[..]), atoms[..], InvertMap(serialToIndex), f))
  {
    ghost var before := atoms[..];
    var indexToSerial := InvertMap(serialToIndex);
    for i := 0 to atoms.Length
      invariant RestoredUpTo(before, atoms[..], indexToSerial, i)
    {
      var atom := atoms[i];
      var pos := ParseInt(atom.serial);
      if pos.None? {
        assert RestoredSerial(before[i].serial, indexToSerial) == Failure(NotAnInteger(atom.serial));
        return Fail(NotAnInteger(atom.serial));
      }
      var index := pos.value - 1;
      if index !in indexToSerial {
        assert RestoredSerial(before[i].serial, indexToSerial) == Failure(MissingIndex(index));
        return Fail(MissingIndex(index));
      }
      assert RestoredSerial(before[i].serial, indexToSerial) == Success(indexToSerial[index]);
      RestoredStep(before, atoms[..], indexToSerial, i);
      atoms[i] := atom.(serial := PdbSerial(indexToSerial[index]));
    }
    r := Pass;
  }

  lemma RestoredColumn(column: string, inv: map<int, int>, pos: int)
    requires ParseInt(column) == Some(pos) && pos - 1 in inv
    ensures RestoredSerial(column, inv) == Success(inv[pos - 1])
  {
  }

  /** The renumbering round trip: when extraction has numbered the atoms
      1, 2, ... in ascending-serial order, restoring gives atom i the column
      of the i-th smallest QM serial, which int() reads back as that serial,
      so the restored column holds every QM serial exactly once. */
  lemma RenumberRoundTrip(qm: seq<int>, m: map<int, int>, columns: seq<string>)
    requires Distinct(qm) && IsIndexMapOf(qm, m) && Injective(m)
    requires |columns| == |qm|
    requires forall i :: 0 <= i < |columns| ==> ParseInt(columns[i]) == Some(i + 1)
    ensures forall i :: 0 <= i < |columns| ==>
      RestoredSerial(columns[i], InvertMap(m)) == Success(SortSerials(qm)[i]) &&
      ParseInt(PdbSerial(SortSerials(qm)[i])) == Some(SortSerials(qm)[i])
    ensures (set i | 0 <= i < |columns| :: SortSerials(qm)[i]) == (set s | s in qm)
  {
    var sorted := SortSerials(qm);
    var inv := InvertMap(m);
    InverseIsSorted(qm, m);
    forall i | 0 <= i < |columns|
      ensures RestoredSerial(columns[i], inv) == Success(sorted[i])
      ensures ParseInt(PdbSerial(sorted[i])) == Some(sorted[i])
    {
      RenumberOne(columns[i], inv, sorted, i);
    }
    SortedColumnsAreQm(qm, m);
  }

  /** With distinct QM serials, index_to_serial maps each index i to the
      i-th smallest serial. */
  lemma InverseIsSorted(qm: seq<int>, m: map<int, int>)
    requires Distinct(qm) && IsIndexMapOf(qm, m) && Injective(m)
    ensures forall i :: 0 <= i < |qm| ==> i in InvertMap(m) && InvertMap(m)[i] == SortSerials(qm)[i]
  {
    var sorted := SortSerials(qm);
    var inv := InvertMap(m);
    SortedDistinct(qm);
    DistinctIndicesDense(qm, m);
    forall i | 0 <= i < |qm|
      ensures i in inv && inv[i] == sorted[i]
    {
      assert i in m.Values;
      var t := inv[i];
      assert m[t] == i && sorted[i] == t;
    }
  }

  lemma RenumberOne(column: string, inv: map<int, int>, sorted: seq<int>, i: nat)
    requires ParseInt(column) == Some(i + 1) && i < |sorted| && i in inv && inv[i] == sorted[i]
    ensures RestoredSerial(column, inv) == Success(sorted[i])
    ensures ParseInt(PdbSerial(sorted[i])) == Some(sorted[i])
  {
    RestoredColumn(column, inv, i + 1);
    PdbSerialRoundTrip(sorted[i]);
  }

  lemma SortedColumnsAreQm(qm: seq<int>, m: map<int, int>)
    requires IsIndexMapOf(qm, m)
    ensures (set i | 0 <= i < |qm| :: SortSerials(qm)[i]) == (set s | s in qm)
  {
    var sorted := SortSerials(qm);
    SortedMembers(qm);
    forall s | s in qm ensures s in (set i | 0 <= i < |qm| :: sorted[i]) {
      assert s in m && sorted[m[s]] == s;
    }
  }
}
