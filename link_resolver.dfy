/** identify_link_pairs: for every link atom, the nearest carbon of the
    subsystem other than the link atom itself. */
module LinkResolver {
  import opened Wrappers
  import opened Text
  import opened Atoms
  import opened Dicts
  import AtomIndex

  datatype LinkError =
    | UnknownSerial(serial: int)     // serial_to_index[link] raises KeyError
    | IndexOutOfRange(index: int)    // atoms[...] raises IndexError
    | BadSerial(column: string)      // int(atom.serial.strip()) raises ValueError
    | NoCarbon(link: int)            // no carbon other than the link atom
    | ClosestUnbound(link: int)      // the script's UnboundLocalError on `closest`

  /** Atom j is a partner candidate for the link atom at position li: a
      carbon, and not the link atom itself. */
  predicate IsCandidate(atoms: seq<Atom>, li: int, j: int) {
    0 <= j < |atoms| && j != li && IsCarbon(atoms[j])
  }

  /** atom.distance(link_atom): the distance between the two atoms'
      coordinates, as the interatomic-distance function given. */
  function Dist(distance: (Coord, Coord) -> real, atoms: seq<Atom>, li: nat, j: nat): real
    requires li < |atoms| && j < |atoms|
  {
    distance(atoms[j].coord, atoms[li].coord)
  }

  /** The best candidate so far: its position and the serial read from it. */
  datatype Best = Best(index: nat, serial: int)

  /** The inner loop of identify_link_pairs after the first n atoms: the
      candidate that last lowered min_distance (which starts at infinity,
      here None) and the serial parsed from it, or the ValueError raised on
      parsing it. */
  function ScanCarbons(distance: (Coord, Coord) -> real, atoms: seq<Atom>, li: nat, n: nat): (r: Result<Option<Best>, LinkError>)
    requires li < |atoms| && n <= |atoms|
    ensures r.Success? && r.value.Some? ==> r.value.value.index < n
    ensures r.Failure? ==> r.error.BadSerial?
  {
    if n == 0 then Success(None)
    else
      match ScanCarbons(distance, atoms, li, n - 1)
      case Failure(e) => Failure(e)
      case Success(best) =>
        var j := n - 1;
        if IsCandidate(atoms, li, j) && (best.None? || Dist(distance, atoms, li, j) < Dist(distance, atoms, li, best.value.index)) then
          match ColumnSerial(atoms[j])
          case None => Failure(BadSerial(atoms[j].serial))
          case Some(v) => Success(Some(Best(j, v)))
        else Success(best)
  }

  /** The scan finds no candidate exactly when there is none among the
      first n atoms. */
  lemma {:induction false} ScanNoneExactly(distance: (Coord, Coord) -> real, atoms: seq<Atom>, li: nat, n: nat)
    requires li < |atoms| && n <= |atoms|
    ensures ScanCarbons(distance, atoms, li, n) == Success(None) <==> forall j :: 0 <= j < n ==> !IsCandidate(atoms, li, j)
  {
    if n > 0 {
      ScanNoneExactly(distance, atoms, li, n - 1);
      var prev := ScanCarbons(distance, atoms, li, n - 1);
      if prev.Success? && prev.value.None? && !IsCandidate(atoms, li, n - 1) {
        assert ScanCarbons(distance, atoms, li, n) == prev;
      }
    }
  }

  /** b is the first nearest candidate among the first n atoms: a carbon
      other than the link atom whose serial parses as b.serial, with no
      candidate strictly closer and every candidate before it strictly
      farther. */
  predicate FirstNearest(distance: (Coord, Coord) -> real, atoms: seq<Atom>, li: nat, n: nat, b: Best)
    requires li < |atoms| && n <= |atoms|
  {
    && b.index < n
    && IsCandidate(atoms, li, b.index)
    && ColumnSerial(atoms[b.index]) == Some(b.serial)
    && (forall j :: 0 <= j < n && IsCandidate(atoms, li, j) ==> Dist(distance, atoms, li, b.index) <= Dist(distance, atoms, li, j))
    && (forall j :: 0 <= j < b.index && IsCandidate(atoms, li, j) ==> Dist(distance, atoms, li, b.index) < Dist(distance, atoms, li, j))
  }

  /** The scan finds the first nearest candidate (the strict `<` lets the
      first of equally near carbons win). */
  lemma {:induction false} ScanFindsFirstNearest(distance: (Coord, Coord) -> real, atoms: seq<Atom>, li: nat, n: nat)
    requires li < |atoms| && n <= |atoms|
    ensures var r := ScanCarbons(distance, atoms, li, n);
      r.Success? && r.value.Some? ==> FirstNearest(distance, atoms, li, n, r.value.value)
  {
    if n > 0 {
      ScanFindsFirstNearest(distance, atoms, li, n - 1);
      ScanNoneExactly(distance, atoms, li, n - 1);
      var prev := ScanCarbons(distance, atoms, li, n - 1);
      var j := n - 1;
      if prev.Success? {
        if IsCandidate(atoms, li, j) && (prev.value.None? || Dist(distance, atoms, li, j) < Dist(distance, atoms, li, prev.value.value.index)) {
          if ColumnSerial(atoms[j]).Some? {
            NewNearest(distance, atoms, li, n, prev.value, ColumnSerial(atoms[j]).value);
          }
        } else if prev.value.Some? {
          KeepNearest(distance, atoms, li, n, prev.value.value);
        }
      }
    }
  }

  /** A candidate strictly closer than the best so far, or the first one,
      becomes the first nearest. */
  lemma NewNearest(distance: (Coord, Coord) -> real, atoms: seq<Atom>, li: nat, n: nat, prev: Option<Best>, v: int)
    requires li < |atoms| && 0 < n <= |atoms|
    requires prev.None? ==> forall j :: 0 <= j < n - 1 ==> !IsCandidate(atoms, li, j)
    requires prev.Some? ==> FirstNearest(distance, atoms, li, n - 1, prev.value)
    requires IsCandidate(atoms, li, n - 1) && ColumnSerial(atoms[n - 1]) == Some(v)
    requires prev.Some? ==> Dist(distance, atoms, li, n - 1) < Dist(distance, atoms, li, prev.value.index)
    ensures FirstNearest(distance, atoms, li, n, Best(n - 1, v))
  {
  }

  /** An atom that is no candidate or not strictly closer keeps the first
      nearest. */
  lemma KeepNearest(distance: (Coord, Coord) -> real, atoms: seq<Atom>, li: nat, n: nat, b: Best)
    requires li < |atoms| && 0 < n <= |atoms|
    requires FirstNearest(distance, atoms, li, n - 1, b)
    requires !(IsCandidate(atoms, li, n - 1) && Dist(distance, atoms, li, n - 1) < Dist(distance, atoms, li, b.index))
    ensures FirstNearest(distance, atoms, li, n, b)
  {
  }

  /** The scan fails only on a candidate whose serial does not parse. */
  lemma {:induction false} ScanSucceedsOnSerials(distance: (Coord, Coord) -> real, atoms: seq<Atom>, li: nat, n: nat)
    requires li < |atoms| && n <= |atoms|
    ensures (forall j :: 0 <= j < n && IsCandidate(atoms, li, j) ==> ColumnSerial(atoms[j]).Some?) ==>
      ScanCarbons(distance, atoms, li, n).Success?
  {
    if n > 0 {
      ScanSucceedsOnSerials(distance, atoms, li, n - 1);
    }
  }

  lemma {:induction false} ScanFailureSticks(distance: (Coord, Coord) -> real, atoms: seq<Atom>, li: nat, i: nat, n: nat)
    requires li < |atoms| && i <= n <= |atoms|
    requires ScanCarbons(distance, atoms, li, i).Failure?
    ensures ScanCarbons(distance, atoms, li, n) == ScanCarbons(distance, atoms, li, i)
  {
    if n > i {
      ScanFailureSticks(distance, atoms, li, i, n - 1);
    }
  }

  /** One link atom as identify_link_pairs should resolve it: the serial of
      its first nearest candidate carbon, or the error met on the way. */
  function ResolveLink(distance: (Coord, Coord) -> real, atoms: seq<Atom>, link: int, serialToIndex: map<int, int>): (r: Result<int, LinkError>)
    ensures r.Success? ==> link in serialToIndex && 0 <= serialToIndex[link] < |atoms|
    ensures r.Failure? ==> !r.error.ClosestUnbound?
    ensures r.Failure? && r.error.UnknownSerial? ==> link !in serialToIndex
  {
    if link !in serialToIndex then Failure(UnknownSerial(link))
    else
      var li := serialToIndex[link];
      if li < 0 || li >= |atoms| then Failure(IndexOutOfRange(li))
      else
        match ScanCarbons(distance, atoms, li, |atoms|)
        case Failure(e) => Failure(e)
        case Success(None) => Failure(NoCarbon(link))
        case Success(Some(b)) => Success(b.serial)
  }

  /** A resolved partner is read from a carbon other than the link atom, no
      carbon is strictly closer to the link atom, and it is the first of the
      nearest ones in atom order. */
  lemma PartnerIsFirstNearestCarbon(distance: (Coord, Coord) -> real, atoms: seq<Atom>, link: int, serialToIndex: map<int, int>)
    requires ResolveLink(distance, atoms, link, serialToIndex).Success?
    ensures link in serialToIndex && 0 <= serialToIndex[link] < |atoms|
    ensures var li := serialToIndex[link];
      exists k :: IsCandidate(atoms, li, k)
        && ColumnSerial(atoms[k]) == Some(ResolveLink(distance, atoms, link, serialToIndex).value)
        && (forall j :: IsCandidate(atoms, li, j) ==> Dist(distance, atoms, li, k) <= Dist(distance, atoms, li, j))
        && (forall j :: 0 <= j < k && IsCandidate(atoms, li, j) ==> Dist(distance, atoms, li, k) < Dist(distance, atoms, li, j))
  {
    var li := serialToIndex[link];
    ScanFindsFirstNearest(distance, atoms, li, |atoms|);
    var b := ScanCarbons(distance, atoms, li, |atoms|).value.value;
    assert IsCandidate(atoms, li, b.index);
  }

  /** The corrected resolution reports a missing carbon exactly when the link
      atom is found and no candidate exists. */
  lemma NoCarbonExactly(distance: (Coord, Coord) -> real, atoms: seq<Atom>, link: int, serialToIndex: map<int, int>)
    ensures ResolveLink(distance, atoms, link, serialToIndex) == Failure(NoCarbon(link)) <==>
      link in serialToIndex && 0 <= serialToIndex[link] < |atoms| &&
      forall j :: !IsCandidate(atoms, serialToIndex[link], j)
  {
    if link in serialToIndex && 0 <= serialToIndex[link] < |atoms| {
      var li := serialToIndex[link];
      ScanNoneExactly(distance, atoms, li, |atoms|);
    }
  }

  /** The partner of one link atom, or the error resolving it raises. */
  type Resolver = int -> Result<int, LinkError>

  /** The link pairs after the first n link atoms, for a given resolution of
      one link atom. */
  function PairsUpTo(links: seq<int>, resolve: Resolver, n: nat): (r: Result<Dict<int>, LinkError>)
    requires n <= |links|
    ensures r.Success? ==> r.value.Valid()
  {
    if n == 0 then Success(Empty())
    else
      match PairsUpTo(links, resolve, n - 1)
      case Failure(e) => Failure(e)
      case Success(pairs) =>
        match resolve(links[n - 1])
        case Failure(e) => Failure(e)
        case Success(partner) => Success(pairs.Put(links[n - 1], partner))
  }

  /** ResolveLink as a resolution of one link atom. */
  function Resolve(distance: (Coord, Coord) -> real, atoms: seq<Atom>, serialToIndex: map<int, int>): Resolver {
    link => ResolveLink(distance, atoms, link, serialToIndex)
  }

  /** The link pairs, with a link atom without a candidate carbon reported
      as an error. */
  function LinkPairs(distance: (Coord, Coord) -> real, atoms: seq<Atom>, links: seq<int>, serialToIndex: map<int, int>): Result<Dict<int>, LinkError> {
    PairsUpTo(links, Resolve(distance, atoms, serialToIndex), |links|)
  }

  lemma {:induction false} PairsFailureSticks(links: seq<int>, resolve: Resolver, i: nat, n: nat)
    requires i <= n <= |links|
    requires PairsUpTo(links, resolve, i).Failure?
    ensures PairsUpTo(links, resolve, n) == PairsUpTo(links, resolve, i)
  {
    if n > i {
      PairsFailureSticks(links, resolve, i, n - 1);
    }
  }

  /** The pairs succeed exactly when every link atom resolves. */
  lemma {:induction false} PairsSucceed(links: seq<int>, resolve: Resolver, n: nat)
    requires n <= |links|
    ensures PairsUpTo(links, resolve, n).Success? <==> forall i :: 0 <= i < n ==> resolve(links[i]).Success?
  {
    if n > 0 {
      PairsSucceed(links, resolve, n - 1);
    }
  }

  /** On success the keys are the link atoms in first-occurrence order and
      each maps to its resolved partner. */
  lemma {:induction false} PairsShape(links: seq<int>, resolve: Resolver, n: nat)
    requires n <= |links|
    ensures var r := PairsUpTo(links, resolve, n);
      r.Success? ==>
        && r.value.keys == FirstOccurrences(links[..n])
        && forall l :: l in r.value.entries ==> resolve(l) == Success(r.value.entries[l])
  {
    if n > 0 {
      PairsShape(links, resolve, n - 1);
      var prev := PairsUpTo(links, resolve, n - 1);
      var link := links[n - 1];
      if prev.Success? && resolve(link).Success? {
        PairsShapeStep(links, resolve, n, prev.value, resolve(link).value);
      }
    }
  }

  /** Assigning the n-th link atom extends the first occurrences of the
      first n - 1. */
  lemma PutFirstOccurrences(links: seq<int>, n: nat, prev: Dict<int>, partner: int)
    requires 0 < n <= |links| && prev.Valid()
    requires prev.keys == FirstOccurrences(links[..n - 1])
    ensures prev.Put(links[n - 1], partner).keys == FirstOccurrences(links[..n])
  {
    var link := links[n - 1];
    assert links[..n][..n - 1] == links[..n - 1];
    assert links[..n][n - 1] == link;
    var p := FirstOccurrences(links[..n - 1]);
    assert FirstOccurrences(links[..n]) == if link in p then p else p + [link];
    assert link in prev.entries <==> link in p;
  }

  lemma PairsShapeStep(links: seq<int>, resolve: Resolver, n: nat, prev: Dict<int>, partner: int)
    requires 0 < n <= |links| && prev.Valid()
    requires prev.keys == FirstOccurrences(links[..n - 1])
    requires forall l :: l in prev.entries ==> resolve(l) == Success(prev.entries[l])
    requires resolve(links[n - 1]) == Success(partner)
    ensures var r := prev.Put(links[n - 1], partner);
      && r.keys == FirstOccurrences(links[..n])
      && forall l :: l in r.entries ==> resolve(l) == Success(r.entries[l])
  {
    PutFirstOccurrences(links, n, prev, partner);
  }

  /** A failed resolution reports the error of the first link atom that does
      not resolve. */
  lemma {:induction false} PairsFirstError(links: seq<int>, resolve: Resolver, n: nat)
    requires n <= |links|
    requires PairsUpTo(links, resolve, n).Failure?
    ensures exists i :: (0 <= i < n && resolve(links[i]) == Failure(PairsUpTo(links, resolve, n).error) &&
      forall j :: 0 <= j < i ==> resolve(links[j]).Success?)
  {
    var prev := PairsUpTo(links, resolve, n - 1);
    if prev.Failure? {
      PairsFirstError(links, resolve, n - 1);
    } else {
      PairsSucceed(links, resolve, n - 1);
      var f := resolve(links[n - 1]);
      assert f.Failure? && PairsUpTo(links, resolve, n) == Failure(f.error);
    }
  }

  /** identify_link_pairs succeeds exactly when every link atom resolves, and
      otherwise fails with the error of the first one that does not. */
  lemma LinkPairsFailure(distance: (Coord, Coord) -> real, atoms: seq<Atom>, links: seq<int>, serialToIndex: map<int, int>)
    ensures var r := LinkPairs(distance, atoms, links, serialToIndex);
      && (r.Success? <==> forall i :: 0 <= i < |links| ==> ResolveLink(distance, atoms, links[i], serialToIndex).Success?)
      && (r.Failure? ==> exists i :: (0 <= i < |links| &&
            ResolveLink(distance, atoms, links[i], serialToIndex) == Failure(r.error) &&
            forall j :: 0 <= j < i ==> ResolveLink(distance, atoms, links[j], serialToIndex).Success?))
  {
    var resolve := Resolve(distance, atoms, serialToIndex);
    PairsSucceed(links, resolve, |links|);
    if PairsUpTo(links, resolve, |links|).Failure? {
      PairsFirstError(links, resolve, |links|);
    }
  }

  /** On success the link pairs have the link atoms as keys, each once in
      first-occurrence order, and map each to its resolved partner. */
  lemma LinkPairsShape(distance: (Coord, Coord) -> real, atoms: seq<Atom>, links: seq<int>, serialToIndex: map<int, int>)
    ensures var r := LinkPairs(distance, atoms, links, serialToIndex);
      r.Success? ==>
        && r.value.keys == FirstOccurrences(links)
        && forall l :: l in r.value.entries ==> ResolveLink(distance, atoms, l, serialToIndex) == Success(r.value.entries[l])
  {
    PairsShape(links, Resolve(distance, atoms, serialToIndex), |links|);
    assert links[..|links|] == links;
  }

  /** identify_link_pairs, with a link atom that has no candidate carbon
      reported as an error (see AsWrittenLinkPairs for what the script does
      instead). */
  method IdentifyLinkPairs(distance: (Coord, Coord) -> real, atoms: array<Atom>, links: seq<int>, serialToIndex: map<int, int>) returns (r: Result<Dict<int>, LinkError>)
    ensures r == LinkPairs(distance, atoms[..], links, serialToIndex)
  {
    var pairs := Empty();
    for n := 0 to |links|
      invariant PairsUpTo(links, Resolve(distance, atoms[..], serialToIndex), n) == Success(pairs)
    {
      var link := links[n];
      var partner := PartnerOf(distance, atoms, link, serialToIndex);
      if partner.Failure? {
        PairsFailureSticks(links, Resolve(distance, atoms[..], serialToIndex), n + 1, |links|);
        return Failure(partner.error);
      }
      pairs := pairs.Put(link, partner.value);
    }
    r := Success(pairs);
  }

  /** The body of the outer loop of identify_link_pairs: locate the link
      atom, then scan for its nearest candidate carbon. */
  method PartnerOf(distance: (Coord, Coord) -> real, atoms: array<Atom>, link: int, serialToIndex: map<int, int>) returns (r: Result<int, LinkError>)
    ensures r == ResolveLink(distance, atoms[..], link, serialToIndex)
  {
    if link !in serialToIndex {
      return Failure(UnknownSerial(link));
    }
    var li := serialToIndex[link];
    if li < 0 || li >= atoms.Length {
      return Failure(IndexOutOfRange(li));
    }
    var best := ClosestCarbon(distance, atoms, li);
    if best.Failure? {
      return Failure(best.error);
    }
    if best.value.None? {
      return Failure(NoCarbon(link));
    }
    r := Success(best.value.value.serial);
  }

  /** The inner loop of identify_link_pairs: one pass over the atoms keeping
      the nearest candidate carbon met so far (min_distance starts at
      infinity, here None), its position and the serial read from it. */
  method ClosestCarbon(distance: (Coord, Coord) -> real, atoms: array<Atom>, li: nat) returns (r: Result<Option<Best>, LinkError>)
    requires li < atoms.Length
    ensures r == ScanCarbons(distance, atoms[..], li, atoms.Length)
  {
    ghost var all := atoms[..];
    var linkAtom := atoms[li];
    var minDistance: Option<real> := None;
    var closest := 0;
    var best: nat := 0;
    for j := 0 to atoms.Length
      invariant minDistance.Some? ==> best < |all| && minDistance.value == Dist(distance, all, li, best)
      invariant ScanCarbons(distance, all, li, j) == Success(if minDistance.None? then None else Some(Best(best, closest)))
    {
      var atom := atoms[j];
      assert atom == all[j];
      if j != li && IsCarbon(atom) {
        var d := distance(atom.coord, linkAtom.coord);
        if minDistance.None? || d < minDistance.value {
          var serial := ColumnSerial(atom);
          if serial.None? {
            ScanFailureSticks(distance, all, li, j + 1, |all|);
            return Failure(BadSerial(atom.serial));
          }
          closest := serial.value;
          minDistance := Some(d);
          best := j;
        }
      }
    }
    r := Success(if minDistance.None? then None else Some(Best(best, closest)));
  }

  /** identify_link_pairs exactly as written: `closest` is not reset between
      link atoms, so a link atom without a candidate carbon silently takes the
      previous link atom's partner, and only the first link atom raises
      UnboundLocalError. State after n link atoms: the pairs and `closest`. */
  function AsWrittenUpTo(distance: (Coord, Coord) -> real, atoms: seq<Atom>, links: seq<int>, serialToIndex: map<int, int>, n: nat): (r: Result<(Dict<int>, Option<int>), LinkError>)
    requires n <= |links|
    ensures r.Success? ==> r.value.0.Valid() && r.value.0.keys == FirstOccurrences(links[..n])
    ensures r.Success? ==> (r.value.1.None? <==> n == 0)
  {
    if n == 0 then Success((Empty(), None))
    else
      match AsWrittenUpTo(distance, atoms, links, serialToIndex, n - 1)
      case Failure(e) => Failure(e)
      case Success((pairs, closest)) =>
        var link := links[n - 1];
        if link !in serialToIndex then Failure(UnknownSerial(link))
        else
          var li := serialToIndex[link];
          if li < 0 || li >= |atoms| then Failure(IndexOutOfRange(li))
          else
            match ScanCarbons(distance, atoms, li, |atoms|)
            case Failure(e) => Failure(e)
            case Success(Some(b)) =>
              PutFirstOccurrences(links, n, pairs, b.serial);
              Success((pairs.Put(link, b.serial), Some(b.serial)))
            case Success(None) =>
              if closest.None? then Failure(ClosestUnbound(link))
              else
                PutFirstOccurrences(links, n, pairs, closest.value);
                Success((pairs.Put(link, closest.value), closest))
  }

  /** The link pairs as the script computes them: the keys are still the
      link atoms in first-occurrence order. */
  function AsWrittenLinkPairs(distance: (Coord, Coord) -> real, atoms: seq<Atom>, links: seq<int>, serialToIndex: map<int, int>): (r: Result<Dict<int>, LinkError>)
    ensures r.Success? ==> r.value.Valid() && r.value.keys == FirstOccurrences(links)
  {
    assert links[..|links|] == links;
    match AsWrittenUpTo(distance, atoms, links, serialToIndex, |links|)
    case Failure(e) => Failure(e)
    case Success((pairs, _)) => Success(pairs)
  }

  /** Where every link atom has a candidate carbon, the script and the
      corrected resolution give the same pairs. */
  lemma {:induction false} AsWrittenAgrees(distance: (Coord, Coord) -> real, atoms: seq<Atom>, links: seq<int>, serialToIndex: map<int, int>, n: nat)
    requires n <= |links|
    requires forall i :: 0 <= i < n ==> ResolveLink(distance, atoms, links[i], serialToIndex) != Failure(NoCarbon(links[i]))
    ensures match AsWrittenUpTo(distance, atoms, links, serialToIndex, n)
      case Failure(e) => PairsUpTo(links, Resolve(distance, atoms, serialToIndex), n) == Failure(e)
      case Success((pairs, _)) => PairsUpTo(links, Resolve(distance, atoms, serialToIndex), n) == Success(pairs)
  {
    if n > 0 {
      AsWrittenAgrees(distance, atoms, links, serialToIndex, n - 1);
    }
  }

  /** A nitrogen and a carbon, both link atoms: the carbon has no carbon
      other than itself, and the script pairs it with itself, whatever the
      distances. */
  lemma StaleClosestPairsLinkWithItself(distance: (Coord, Coord) -> real)
    ensures var atoms := [Atom("1", "N", "N", "GLY", Coord(0.0, 0.0, 0.0)),
                          Atom("2", "C", "CA", "GLY", Coord(1.5, 0.0, 0.0))];
      var links := [1, 2];
      var serialToIndex := map[1 := 0, 2 := 1];
      && AsWrittenLinkPairs(distance, atoms, links, serialToIndex).Success?
      && AsWrittenLinkPairs(distance, atoms, links, serialToIndex).value.entries[2] == 2
      && LinkPairs(distance, atoms, links, serialToIndex) == Failure(NoCarbon(2))
  {
    var atoms := [Atom("1", "N", "N", "GLY", Coord(0.0, 0.0, 0.0)),
                  Atom("2", "C", "CA", "GLY", Coord(1.5, 0.0, 0.0))];
    var links := [1, 2];
    var serialToIndex := map[1 := 0, 2 := 1];
    assert Strip("N") == "N" && Strip("C") == "C" && Strip("2") == "2";
    assert ParseInt("2") == Some(2) by {
      assert AllDigits("2") && DigitsValue("2") == 2;
    }
    assert ScanCarbons(distance, atoms, 0, 2) == Success(Some(Best(1, 2)));
    assert ScanCarbons(distance, atoms, 1, 2) == Success(None);
    assert AsWrittenUpTo(distance, atoms, links, serialToIndex, 1).Success?;
  }

  /** After restore_serial_in_model has written the sorted QM serials into
      the numbering columns, a resolved partner is a QM serial other than the
      link atom's own. */
  lemma PartnerIsOtherQmAtom(distance: (Coord, Coord) -> real, qm: seq<int>, m: map<int, int>, atoms: seq<Atom>, link: int)
    requires Distinct(qm) && AtomIndex.IsIndexMapOf(qm, m)
    requires |atoms| == |qm|
    requires forall i :: 0 <= i < |atoms| ==> atoms[i].serial == AtomIndex.PdbSerial(AtomIndex.SortSerials(qm)[i])
    requires ResolveLink(distance, atoms, link, m).Success?
    ensures ResolveLink(distance, atoms, link, m).value in qm
    ensures ResolveLink(distance, atoms, link, m).value != link
  {
    var sorted := AtomIndex.SortSerials(qm);
    AtomIndex.SortedDistinct(qm);
    AtomIndex.SortedMembers(qm);
    PartnerIsFirstNearestCarbon(distance, atoms, link, m);
    var li := m[link];
    var k :| IsCandidate(atoms, li, k) && ColumnSerial(atoms[k]) == Some(ResolveLink(distance, atoms, link, m).value);
    RestoredColumnReadsBack(atoms[k], sorted[k]);
    assert sorted[li] == link;
    assert sorted[k] != sorted[li];
  }

  /** The partner search reads a restored numbering column back as the
      serial written into it. */
  lemma RestoredColumnReadsBack(a: Atom, serial: int)
    requires a.serial == AtomIndex.PdbSerial(serial)
    ensures ColumnSerial(a) == Some(serial)
  {
    StripJustified(serial);
    ParseIntOfJustified(serial, 0);
  }

  /** Stripping a restored numbering column leaves str() of the serial. */
  lemma StripJustified(serial: int)
    ensures Strip(AtomIndex.PdbSerial(serial)) == IntToString(serial)
  {
    var r := AtomIndex.PdbSerial(serial);
    var d := IntToString(serial);
    RightJustifyShape(d, AtomIndex.SerialWidth);
    assert r == r[..|r| - |d|] + d;
    SpacesAreBlank(r[..|r| - |d|], StripBlanks);
    StripPadded(r[..|r| - |d|], d);
  }
}
