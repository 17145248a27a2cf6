/** calculate_g_factor: the capping (junction) factor of every link pair,
    the ideal C-H distance of the junction table divided by the ideal length
    of the bond between the link atom and its partner. */
module Capping {
  import opened Wrappers
  import opened Text
  import opened Atoms
  import opened Dicts
  import AtomIndex
  import LinkResolver

  /** junc_factors[resname][bond][ltype] */
  type JunctionTable = map<string, map<string, map<int, real>>>

  datatype CapError =
    | UnknownSerial(serial: int)                                    // serial_to_index[...] raises KeyError
    | IndexOutOfRange(index: int)                                   // atoms[...] raises IndexError
    | ResidueMissing(resname: string)                               // SystemExit: residue missing
    | BondMissing(bond: string, partner: int, link: int, resname: string)  // SystemExit: bond missing
    | LtypeMissing(ltype: int, bond: string, resname: string)       // SystemExit: ltype missing
    | NoBondParams(i: int, j: int)                                  // lookup(...) is None: AttributeError
    | ZeroIdealLength(i: int, j: int)                               // distance_ideal == 0: ZeroDivisionError

  /** atoms[serial_to_index[serial]]: the position of the atom with that
      serial, or the KeyError or IndexError raised on the way. */
  function Position(atoms: seq<Atom>, serial: int, serialToIndex: map<int, int>): (r: Result<nat, CapError>)
    ensures r.Success? <==> serial in serialToIndex && 0 <= serialToIndex[serial] < |atoms|
    ensures r.Success? ==> r.value == serialToIndex[serial]
    ensures r.Failure? ==> r.error == if serial !in serialToIndex then UnknownSerial(serial) else IndexOutOfRange(serialToIndex[serial])
  {
    if serial !in serialToIndex then Failure(UnknownSerial(serial))
    else if serialToIndex[serial] < 0 || serialToIndex[serial] >= |atoms| then Failure(IndexOutOfRange(serialToIndex[serial]))
    else Success(serialToIndex[serial])
  }

  /** Once restore_serial_in_model has written the sorted QM serials into
      the numbering columns, atoms[serial_to_index[s]] is, for every QM
      serial s, the one atom whose column reads as s: neither the KeyError
      nor the IndexError can happen. */
  lemma PositionFindsSerial(qm: seq<int>, m: map<int, int>, atoms: seq<Atom>, s: int)
    requires Distinct(qm) && AtomIndex.IsIndexMapOf(qm, m)
    requires |atoms| == |qm|
    requires forall i :: 0 <= i < |atoms| ==> atoms[i].serial == AtomIndex.PdbSerial(AtomIndex.SortSerials(qm)[i])
    requires s in qm
    ensures Position(atoms, s, m).Success?
    ensures ColumnSerial(atoms[Position(atoms, s, m).value]) == Some(s)
    ensures forall k :: 0 <= k < |atoms| && ColumnSerial(atoms[k]) == Some(s) ==> k == Position(atoms, s, m).value
  {
    var sorted := AtomIndex.SortSerials(qm);
    AtomIndex.SortedDistinct(qm);
    LinkResolver.RestoredColumnReadsBack(atoms[m[s]], s);
    forall k | 0 <= k < |atoms| && ColumnSerial(atoms[k]) == Some(s)
      ensures k == m[s]
    {
      LinkResolver.RestoredColumnReadsBack(atoms[k], sorted[k]);
    }
  }

  /** '-'.join([c_qm.name.strip(), link_atom.name.strip()]) */
  function BondKey(partner: Atom, link: Atom): string {
    Strip(partner.name) + "-" + Strip(link.name)
  }

  /** The capping factor of one link pair: the partner atom is located first,
      then the link atom; the residue, the bond and the link type are looked
      up in that order; the ideal bond length is asked for the pair of
      positions (link, partner) and divides the table's value. */
  function CappingFactor(atoms: seq<Atom>, link: int, partner: int, junc: JunctionTable, ltype: int, serialToIndex: map<int, int>, ideal: (int, int) -> Option<real>): (r: Result<real, CapError>)
    ensures r.Success? ==>
      && Position(atoms, partner, serialToIndex).Success? && Position(atoms, link, serialToIndex).Success?
      && var pi, li := serialToIndex[partner], serialToIndex[link];
         var res, bond := atoms[li].resname, BondKey(atoms[pi], atoms[li]);
         && res in junc && bond in junc[res] && ltype in junc[res][bond]
         && ideal(li, pi).Some? && ideal(li, pi).value != 0.0
  {
    var pi :- Position(atoms, partner, serialToIndex);
    var li :- Position(atoms, link, serialToIndex);
    var p, l := atoms[pi], atoms[li];
    var res, bond := l.resname, BondKey(p, l);
    if res !in junc then Failure(ResidueMissing(res))
    else if bond !in junc[res] then Failure(BondMissing(bond, partner, link, res))
    else if ltype !in junc[res][bond] then Failure(LtypeMissing(ltype, bond, res))
    else
      match ideal(li, pi)
      case None => Failure(NoBondParams(li, pi))
      case Some(d) =>
        if d == 0.0 then Failure(ZeroIdealLength(li, pi))
        else Success(junc[res][bond][ltype] / d)
  }

  /** The failure cases of one pair in the order the script meets them,
      and the factor when none applies. */
  lemma CappingFactorCases(atoms: seq<Atom>, link: int, partner: int, junc: JunctionTable, ltype: int, serialToIndex: map<int, int>, ideal: (int, int) -> Option<real>)
    ensures Position(atoms, partner, serialToIndex).Failure? ==> CappingFactor(atoms, link, partner, junc, ltype, serialToIndex, ideal) == Failure(Position(atoms, partner, serialToIndex).error)
    ensures Position(atoms, partner, serialToIndex).Success? && Position(atoms, link, serialToIndex).Failure? ==>
      CappingFactor(atoms, link, partner, junc, ltype, serialToIndex, ideal) == Failure(Position(atoms, link, serialToIndex).error)
    ensures Position(atoms, partner, serialToIndex).Success? && Position(atoms, link, serialToIndex).Success? ==>
      var p, l := atoms[serialToIndex[partner]], atoms[serialToIndex[link]];
      var res, bond := l.resname, BondKey(p, l);
      && (res !in junc ==> CappingFactor(atoms, link, partner, junc, ltype, serialToIndex, ideal) == Failure(ResidueMissing(res)))
      && (res in junc && bond !in junc[res] ==> CappingFactor(atoms, link, partner, junc, ltype, serialToIndex, ideal) == Failure(BondMissing(bond, partner, link, res)))
      && (res in junc && bond in junc[res] && ltype !in junc[res][bond] ==> CappingFactor(atoms, link, partner, junc, ltype, serialToIndex, ideal) == Failure(LtypeMissing(ltype, bond, res)))
      && (res in junc && bond in junc[res] && ltype in junc[res][bond] ==>
            var li, pi := serialToIndex[link], serialToIndex[partner];
            && (ideal(li, pi).None? ==> CappingFactor(atoms, link, partner, junc, ltype, serialToIndex, ideal) == Failure(NoBondParams(li, pi)))
            && (ideal(li, pi) == Some(0.0) ==> CappingFactor(atoms, link, partner, junc, ltype, serialToIndex, ideal) == Failure(ZeroIdealLength(li, pi)))
            && (ideal(li, pi).Some? && ideal(li, pi).value != 0.0 ==>
                  CappingFactor(atoms, link, partner, junc, ltype, serialToIndex, ideal) == Success(junc[res][bond][ltype] / ideal(li, pi).value)))
    ensures CappingFactor(atoms, link, partner, junc, ltype, serialToIndex, ideal).Success? ==> Position(atoms, partner, serialToIndex).Success? && Position(atoms, link, serialToIndex).Success?
  {
  }

  /** The inputs of one pair are positive: the table's value for the pair's
      residue, bond and link type, where it has one, and the ideal length of
      the pair's bond, where there is one. */
  ghost predicate PositiveInputs(atoms: seq<Atom>, link: int, partner: int, junc: JunctionTable, ltype: int, serialToIndex: map<int, int>, ideal: (int, int) -> Option<real>) {
    Position(atoms, partner, serialToIndex).Success? && Position(atoms, link, serialToIndex).Success? ==>
      var pi, li := serialToIndex[partner], serialToIndex[link];
      var res, bond := atoms[li].resname, BondKey(atoms[pi], atoms[li]);
      && (res in junc && bond in junc[res] && ltype in junc[res][bond] ==> junc[res][bond][ltype] > 0.0)
      && (ideal(li, pi).Some? ==> ideal(li, pi).value > 0.0)
  }

  /** The factor is positive whenever the table's value and the ideal bond
      length of that pair both are. */
  lemma CappingFactorPositive(atoms: seq<Atom>, link: int, partner: int, junc: JunctionTable, ltype: int, serialToIndex: map<int, int>, ideal: (int, int) -> Option<real>)
    requires PositiveInputs(atoms, link, partner, junc, ltype, serialToIndex, ideal)
    requires CappingFactor(atoms, link, partner, junc, ltype, serialToIndex, ideal).Success?
    ensures CappingFactor(atoms, link, partner, junc, ltype, serialToIndex, ideal).value > 0.0
  {
    CappingFactorCases(atoms, link, partner, junc, ltype, serialToIndex, ideal);
    var pi, li := serialToIndex[partner], serialToIndex[link];
    var p, l := atoms[pi], atoms[li];
    var res, bond := l.resname, BondKey(p, l);
    var c, d := junc[res][bond][ltype], ideal(li, pi).value;
    assert c > 0.0 && d > 0.0;
    assert c / d > 0.0;
  }

  /** The factor of one pair (link, partner), or the error it raises. */
  type Factor = (int, int) -> Result<real, CapError>

  /** g after the first n link pairs in insertion order, for a given
      per-pair factor. */
  function FactorsUpTo(pairs: Dict<int>, factor: Factor, n: nat): (r: Result<Dict<real>, CapError>)
    requires pairs.Valid() && n <= |pairs.keys|
    ensures r.Success? ==> r.value.Valid()
  {
    if n == 0 then Success(Empty())
    else
      match FactorsUpTo(pairs, factor, n - 1)
      case Failure(e) => Failure(e)
      case Success(g) =>
        var link := pairs.keys[n - 1];
        match factor(link, pairs.entries[link])
        case Failure(e) => Failure(e)
        case Success(f) => Success(g.Put(link, f))
  }

  /** The capping factor as a per-pair factor. */
  function CapFactor(atoms: seq<Atom>, junc: JunctionTable, ltype: int, serialToIndex: map<int, int>, ideal: (int, int) -> Option<real>): Factor {
    (link, partner) => CappingFactor(atoms, link, partner, junc, ltype, serialToIndex, ideal)
  }

  /** The g dictionary calculate_g_factor returns, or its first error. */
  function GFactors(atoms: seq<Atom>, pairs: Dict<int>, junc: JunctionTable, ltype: int, serialToIndex: map<int, int>, ideal: (int, int) -> Option<real>): Result<Dict<real>, CapError>
    requires pairs.Valid()
  {
    FactorsUpTo(pairs, CapFactor(atoms, junc, ltype, serialToIndex, ideal), |pairs.keys|)
  }

  lemma {:induction false} FactorsFailureSticks(pairs: Dict<int>, factor: Factor, i: nat, n: nat)
    requires pairs.Valid() && i <= n <= |pairs.keys|
    requires FactorsUpTo(pairs, factor, i).Failure?
    ensures FactorsUpTo(pairs, factor, n) == FactorsUpTo(pairs, factor, i)
  {
    if n > i {
      FactorsFailureSticks(pairs, factor, i, n - 1);
    }
  }

  /** g succeeds exactly when every link pair has a factor. */
  lemma {:induction false} FactorsSucceed(pairs: Dict<int>, factor: Factor, n: nat)
    requires pairs.Valid() && n <= |pairs.keys|
    ensures FactorsUpTo(pairs, factor, n).Success? <==>
      forall i :: 0 <= i < n ==> factor(pairs.keys[i], pairs.ValueAt(i)).Success?
  {
    if n > 0 {
      FactorsSucceed(pairs, factor, n - 1);
    }
  }

  /** On success g has exactly the link pairs' keys, in the same order, and
      each maps to the factor of its pair. */
  lemma {:induction false} FactorsShape(pairs: Dict<int>, factor: Factor, n: nat)
    requires pairs.Valid() && n <= |pairs.keys|
    ensures var r := FactorsUpTo(pairs, factor, n);
      r.Success? ==>
        && r.value.keys == pairs.keys[..n]
        && forall link :: link in r.value.entries ==> Success(r.value.entries[link]) == factor(link, pairs.entries[link])
  {
    if n > 0 {
      FactorsShape(pairs, factor, n - 1);
      var prev := FactorsUpTo(pairs, factor, n - 1);
      var link := pairs.keys[n - 1];
      var f := factor(link, pairs.entries[link]);
      if prev.Success? && f.Success? {
        assert link !in prev.value.keys;
        assert pairs.keys[..n] == pairs.keys[..n - 1] + [link];
      }
    }
  }

  /** A failed g reports the error of the first link pair without a
      factor. */
  lemma {:induction false} FactorsFirstError(pairs: Dict<int>, factor: Factor, n: nat)
    requires pairs.Valid() && n <= |pairs.keys|
    requires FactorsUpTo(pairs, factor, n).Failure?
    ensures exists i :: (0 <= i < n &&
      factor(pairs.keys[i], pairs.ValueAt(i)) == Failure(FactorsUpTo(pairs, factor, n).error) &&
      forall j :: 0 <= j < i ==> factor(pairs.keys[j], pairs.ValueAt(j)).Success?)
  {
    var prev := FactorsUpTo(pairs, factor, n - 1);
    if prev.Failure? {
      FactorsFirstError(pairs, factor, n - 1);
    } else {
      FactorsSucceed(pairs, factor, n - 1);
      var link := pairs.keys[n - 1];
      var f := factor(link, pairs.entries[link]);
      assert f.Failure? && FactorsUpTo(pairs, factor, n) == Failure(f.error);
      assert 0 <= n - 1 < n && factor(pairs.keys[n - 1], pairs.ValueAt(n - 1)) == Failure(FactorsUpTo(pairs, factor, n).error);
    }
  }

  /** calculate_g_factor fails exactly when a link pair has no capping
      factor, and then with the error of the first such pair in insertion
      order. */
  lemma GFactorsFailure(atoms: seq<Atom>, pairs: Dict<int>, junc: JunctionTable, ltype: int, serialToIndex: map<int, int>, ideal: (int, int) -> Option<real>)
    requires pairs.Valid()
    ensures var r := GFactors(atoms, pairs, junc, ltype, serialToIndex, ideal);
      && (r.Success? <==> forall i :: 0 <= i < |pairs.keys| ==> CappingFactor(atoms, pairs.keys[i], pairs.ValueAt(i), junc, ltype, serialToIndex, ideal).Success?)
      && (r.Failure? ==> exists i :: (0 <= i < |pairs.keys| &&
            CappingFactor(atoms, pairs.keys[i], pairs.ValueAt(i), junc, ltype, serialToIndex, ideal) == Failure(r.error) &&
            forall j :: 0 <= j < i ==> CappingFactor(atoms, pairs.keys[j], pairs.ValueAt(j), junc, ltype, serialToIndex, ideal).Success?))
  {
    var factor := CapFactor(atoms, junc, ltype, serialToIndex, ideal);
    FactorsSucceed(pairs, factor, |pairs.keys|);
    if FactorsUpTo(pairs, factor, |pairs.keys|).Failure? {
      FactorsFirstError(pairs, factor, |pairs.keys|);
    }
  }

  /** On success g has the link pairs' keys in their order, each mapped to
      the capping factor of its pair. */
  lemma GFactorsShape(atoms: seq<Atom>, pairs: Dict<int>, junc: JunctionTable, ltype: int, serialToIndex: map<int, int>, ideal: (int, int) -> Option<real>)
    requires pairs.Valid()
    ensures var r := GFactors(atoms, pairs, junc, ltype, serialToIndex, ideal);
      r.Success? ==>
        && r.value.keys == pairs.keys
        && forall link :: link in r.value.entries ==>
             Success(r.value.entries[link]) == CappingFactor(atoms, link, pairs.entries[link], junc, ltype, serialToIndex, ideal)
  {
    FactorsShape(pairs, CapFactor(atoms, junc, ltype, serialToIndex, ideal), |pairs.keys|);
    assert pairs.keys[..|pairs.keys|] == pairs.keys;
  }

  /** When the inputs of every link pair are positive, every factor in g
      is positive. */
  lemma GFactorsPositive(atoms: seq<Atom>, pairs: Dict<int>, junc: JunctionTable, ltype: int, serialToIndex: map<int, int>, ideal: (int, int) -> Option<real>)
    requires pairs.Valid()
    requires forall link :: link in pairs.entries ==> PositiveInputs(atoms, link, pairs.entries[link], junc, ltype, serialToIndex, ideal)
    ensures var r := GFactors(atoms, pairs, junc, ltype, serialToIndex, ideal);
      r.Success? ==> forall link :: link in r.value.entries ==> r.value.entries[link] > 0.0
  {
    var r := GFactors(atoms, pairs, junc, ltype, serialToIndex, ideal);
    if r.Success? {
      GFactorsShape(atoms, pairs, junc, ltype, serialToIndex, ideal);
      forall link | link in r.value.entries
        ensures r.value.entries[link] > 0.0
      {
        CappingFactorPositive(atoms, link, pairs.entries[link], junc, ltype, serialToIndex, ideal);
      }
    }
  }

  /** calculate_g_factor: one capping factor per link pair, in the pairs'
      insertion order, stopping at the first pair that raises. */
  method CalculateGFactor(atoms: array<Atom>, pairs: Dict<int>, junc: JunctionTable, ltype: int, serialToIndex: map<int, int>, ideal: (int, int) -> Option<real>) returns (r: Result<Dict<real>, CapError>)
    requires pairs.Valid()
    ensures r == GFactors(atoms[..], pairs, junc, ltype, serialToIndex, ideal)
  {
    r := FillFactors(pairs, CapFactor(atoms[..], junc, ltype, serialToIndex, ideal));
  }

  /** The loop of calculate_g_factor, for any per-pair factor: g[key] is
      set pair by pair in insertion order, and the first error ends it. */
  method FillFactors(pairs: Dict<int>, factor: Factor) returns (r: Result<Dict<real>, CapError>)
    requires pairs.Valid()
    ensures r == FactorsUpTo(pairs, factor, |pairs.keys|)
  {
    var g := Empty();
    for n := 0 to |pairs.keys|
      invariant FactorsUpTo(pairs, factor, n) == Success(g)
    {
      var key := pairs.keys[n];
      var value := pairs.entries[key];
      var f := factor(key, value);
      if f.Failure? {
        FactorsFailureSticks(pairs, factor, n + 1, |pairs.keys|);
        return Failure(f.error);
      }
      g := g.Put(key, f.value);
    }
    r := Success(g);
  }
}
