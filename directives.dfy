/** The restraint and transform directives of the command line: each is a
    list of fields whose first field names the subsystem it belongs to.
    Those of the current subsystem are kept, in order, and unpacked. */
module Directives {
  import opened Wrappers
  import opened Text

  /** [atom1_serial, atom2_serial, desired_distance, force_constant] */
  datatype DistanceRestraint = DistanceRestraint(atom1: int, atom2: int, distance: real, forceConstant: real)

  /** [atom1_serial, atom2_serial, atom3_serial, desired_angle, force_constant] */
  datatype AngleRestraint = AngleRestraint(atom1: int, atom2: int, atom3: int, angle: real, forceConstant: real)

  /** {'atoms': ..., 'R': rows of the matrix, 't': the translation} */
  datatype Transform = Transform(atoms: string, rotation: seq<seq<real>>, translation: seq<real>)

  /** The ValueError raised by int() or float() on a field. */
  datatype DirectiveError = NotAnInteger(field: string) | NotAFloat(field: string)

  /** Fields per directive, as the command line's nargs fixes them. */
  const DistanceArity: nat := 5
  const AngleArity: nat := 6
  const TransformArity: nat := 14

  /** [int(x) for x in fields], stopping at the first field int() rejects. */
  function ParseInts(fields: seq<string>): (r: Result<seq<int>, DirectiveError>)
    ensures r.Success? <==> forall i :: 0 <= i < |fields| ==> ParseInt(fields[i]).Some?
    ensures r.Success? ==> |r.value| == |fields| && forall i :: 0 <= i < |fields| ==> Some(r.value[i]) == ParseInt(fields[i])
    ensures r.Failure? ==> exists i :: (0 <= i < |fields| && ParseInt(fields[i]).None? && r.error == NotAnInteger(fields[i]) &&
      forall j :: 0 <= j < i ==> ParseInt(fields[j]).Some?)
  {
    if fields == [] then Success([])
    else
      match ParseInt(fields[0])
      case None => Failure(NotAnInteger(fields[0]))
      case Some(v) =>
        match ParseInts(fields[1..])
        case Failure(e) =>
          assert forall i :: 1 <= i < |fields| ==> fields[i] == fields[1..][i - 1];
          Failure(e)
        case Success(vs) => Success([v] + vs)
  }

  /** [float(x) for x in fields], with float() given as toFloat, stopping at
      the first field it rejects. */
  function ParseFloats(fields: seq<string>, toFloat: string -> Option<real>): (r: Result<seq<real>, DirectiveError>)
    ensures r.Success? <==> forall i :: 0 <= i < |fields| ==> toFloat(fields[i]).Some?
    ensures r.Success? ==> |r.value| == |fields| && forall i :: 0 <= i < |fields| ==> Some(r.value[i]) == toFloat(fields[i])
    ensures r.Failure? ==> exists i :: (0 <= i < |fields| && toFloat(fields[i]).None? && r.error == NotAFloat(fields[i]) &&
      forall j :: 0 <= j < i ==> toFloat(fields[j]).Some?)
  {
    if fields == [] then Success([])
    else
      match toFloat(fields[0])
      case None => Failure(NotAFloat(fields[0]))
      case Some(v) =>
        match ParseFloats(fields[1..], toFloat)
        case Failure(e) =>
          assert forall i :: 1 <= i < |fields| ==> fields[i] == fields[1..][i - 1];
          Failure(e)
        case Success(vs) => Success([v] + vs)
  }

  /** Field j reads as a number: fields 1 .. ints with int(), the later
      ones with float(). */
  predicate FieldReads(d: seq<string>, ints: nat, toFloat: string -> Option<real>, j: nat)
    requires j < |d|
  {
    if j <= ints then ParseInt(d[j]).Some? else toFloat(d[j]).Some?
  }

  /** The ValueError raised on field j. */
  function FieldError(d: seq<string>, ints: nat, j: nat): DirectiveError
    requires j < |d|
  {
    if j <= ints then NotAnInteger(d[j]) else NotAFloat(d[j])
  }

  /** The error is that of the first field after the tag that does not
      read. */
  predicate FirstBadField(d: seq<string>, ints: nat, toFloat: string -> Option<real>, e: DirectiveError) {
    exists i :: (1 <= i < |d| && !FieldReads(d, ints, toFloat, i) && e == FieldError(d, ints, i) &&
      forall j :: 1 <= j < i ==> FieldReads(d, ints, toFloat, j))
  }

  /** [int(r[1]), int(r[2]), float(r[3]), float(r[4])], evaluated left to
      right. */
  function UnpackDistance(d: seq<string>, toFloat: string -> Option<real>): (r: Result<DistanceRestraint, DirectiveError>)
    requires |d| == DistanceArity
    ensures r.Success? <==> (forall i :: 1 <= i < 3 ==> ParseInt(d[i]).Some?) && (forall i :: 3 <= i < 5 ==> toFloat(d[i]).Some?)
    ensures r.Success? ==> r.value == DistanceRestraint(ParseInt(d[1]).value, ParseInt(d[2]).value, toFloat(d[3]).value, toFloat(d[4]).value)
    ensures r.Failure? && (forall i :: 1 <= i < 3 ==> ParseInt(d[i]).Some?) ==> r.error.NotAFloat?
    ensures r.Failure? && !(forall i :: 1 <= i < 3 ==> ParseInt(d[i]).Some?) ==> r.error.NotAnInteger?
    ensures r.Failure? ==> FirstBadField(d, 2, toFloat, r.error)
  {
    var ints := ParseInts(d[1..3]);
    assert forall i :: 1 <= i < 3 ==> d[i] == d[1..3][i - 1];
    if ints.Failure? then
      IntFieldFails(d, 2, toFloat, ints);
      Failure(ints.error)
    else
      var floats := ParseFloats(d[3..5], toFloat);
      assert forall i :: 3 <= i < 5 ==> d[i] == d[3..5][i - 3];
      if floats.Failure? then
        FloatFieldFails(d, 2, toFloat, floats);
        Failure(floats.error)
      else
        Success(DistanceRestraint(ints.value[0], ints.value[1], floats.value[0], floats.value[1]))
  }

  /** [int(r[1]), int(r[2]), int(r[3]), float(r[4]), float(r[5])] */
  function UnpackAngle(d: seq<string>, toFloat: string -> Option<real>): (r: Result<AngleRestraint, DirectiveError>)
    requires |d| == AngleArity
    ensures r.Success? <==> (forall i :: 1 <= i < 4 ==> ParseInt(d[i]).Some?) && (forall i :: 4 <= i < 6 ==> toFloat(d[i]).Some?)
    ensures r.Success? ==> r.value == AngleRestraint(ParseInt(d[1]).value, ParseInt(d[2]).value, ParseInt(d[3]).value, toFloat(d[4]).value, toFloat(d[5]).value)
    ensures r.Failure? && (forall i :: 1 <= i < 4 ==> ParseInt(d[i]).Some?) ==> r.error.NotAFloat?
    ensures r.Failure? && !(forall i :: 1 <= i < 4 ==> ParseInt(d[i]).Some?) ==> r.error.NotAnInteger?
    ensures r.Failure? ==> FirstBadField(d, 3, toFloat, r.error)
  {
    var ints := ParseInts(d[1..4]);
    assert forall i :: 1 <= i < 4 ==> d[i] == d[1..4][i - 1];
    if ints.Failure? then
      IntFieldFails(d, 3, toFloat, ints);
      Failure(ints.error)
    else
      var floats := ParseFloats(d[4..6], toFloat);
      assert forall i :: 4 <= i < 6 ==> d[i] == d[4..6][i - 4];
      if floats.Failure? then
        FloatFieldFails(d, 3, toFloat, floats);
        Failure(floats.error)
      else
        Success(AngleRestraint(ints.value[0], ints.value[1], ints.value[2], floats.value[0], floats.value[1]))
  }

  /** An integer field that int() rejects is the first bad field. */
  lemma IntFieldFails(d: seq<string>, ints: nat, toFloat: string -> Option<real>, r: Result<seq<int>, DirectiveError>)
    requires 1 + ints <= |d| && r == ParseInts(d[1..1 + ints]) && r.Failure?
    ensures FirstBadField(d, ints, toFloat, r.error)
  {
    var f := d[1..1 + ints];
    var i :| 0 <= i < |f| && ParseInt(f[i]).None? && r.error == NotAnInteger(f[i]) &&
      forall j :: 0 <= j < i ==> ParseInt(f[j]).Some?;
    assert f[i] == d[i + 1];
    forall j | 1 <= j < i + 1 ensures FieldReads(d, ints, toFloat, j) {
      assert f[j - 1] == d[j];
    }
    assert !FieldReads(d, ints, toFloat, i + 1) && r.error == FieldError(d, ints, i + 1);
  }

  /** After every integer field reads, a float field that float() rejects
      is the first bad field. */
  lemma FloatFieldFails(d: seq<string>, ints: nat, toFloat: string -> Option<real>, r: Result<seq<real>, DirectiveError>)
    requires 1 + ints <= |d| && forall j :: 1 <= j <= ints ==> ParseInt(d[j]).Some?
    requires r == ParseFloats(d[1 + ints..], toFloat) && r.Failure?
    ensures FirstBadField(d, ints, toFloat, r.error)
  {
    var f := d[1 + ints..];
    var i :| 0 <= i < |f| && toFloat(f[i]).None? && r.error == NotAFloat(f[i]) &&
      forall j :: 0 <= j < i ==> toFloat(f[j]).Some?;
    var k := i + 1 + ints;
    assert f[i] == d[k];
    forall j | ints < j < k ensures toFloat(d[j]).Some? {
      assert f[j - 1 - ints] == d[j];
    }
    assert !FieldReads(d, ints, toFloat, k) && r.error == FieldError(d, ints, k);
  }

  /** atoms is field 1, row i of R (i = 0, 1, 2) is fields 3i+2 .. 3i+4 and
      t is fields 11 .. 13. The twelve fields are read as floats in that
      order, R's rows before t, so the first one float() rejects is the
      error. */
  function UnpackTransform(d: seq<string>, toFloat: string -> Option<real>): (r: Result<Transform, DirectiveError>)
    requires |d| == TransformArity
    ensures r.Success? <==> forall i :: 2 <= i < 14 ==> toFloat(d[i]).Some?
    ensures r.Success? ==>
      && r.value.atoms == d[1]
      && |r.value.rotation| == 3
      && (forall i :: 0 <= i < 3 ==> |r.value.rotation[i]| == 3)
      && (forall i, j :: 0 <= i < 3 && 0 <= j < 3 ==> Some(r.value.rotation[i][j]) == toFloat(d[3 * i + 2 + j]))
      && |r.value.translation| == 3
      && (forall j :: 0 <= j < 3 ==> Some(r.value.translation[j]) == toFloat(d[11 + j]))
    ensures r.Failure? ==> exists i :: (2 <= i < 14 && toFloat(d[i]).None? && r.error == NotAFloat(d[i]) &&
      forall j :: 2 <= j < i ==> toFloat(d[j]).Some?)
  {
    assert forall i :: 2 <= i < 14 ==> d[i] == d[2..14][i - 2];
    var v :- ParseFloats(d[2..14], toFloat);
    Success(Transform(d[1], [v[0..3], v[3..6], v[6..9]], v[9..12]))
  }

  /** The directives of subsystem k among the first n given, in order: the
      ones whose first field reads as k. */
  function Tagged(ds: seq<seq<string>>, k: int, n: nat): (r: seq<seq<string>>)
    requires n <= |ds|
    requires forall d :: d in ds ==> |d| > 0
    ensures forall i :: 0 <= i < |r| ==> r[i] in ds
    ensures forall d :: d in r <==> d in ds[..n] && ParseInt(d[0]) == Some(k)
    ensures |r| <= n
  {
    if n == 0 then []
    else
      var last := ds[n - 1];
      assert forall d :: d in ds[..n] <==> d in ds[..n - 1] || d == last by {
        assert ds[..n] == ds[..n - 1] + [last];
      }
      Tagged(ds, k, n - 1) + if ParseInt(last[0]) == Some(k) then [last] else []
  }

  /** The loop `for r in directives: if int(r[0]) == k: append(unpack(r))`
      after the first n directives: every tag is read with int(), also on
      directives of other subsystems, and the first ValueError stops it. */
  function Collected<T>(ds: seq<seq<string>>, k: int, unpack: seq<string> --> Result<T, DirectiveError>, n: nat): Result<seq<T>, DirectiveError>
    requires n <= |ds|
    requires forall d :: d in ds ==> |d| > 0 && unpack.requires(d)
  {
    if n == 0 then Success([])
    else
      match Collected(ds, k, unpack, n - 1)
      case Failure(e) => Failure(e)
      case Success(acc) =>
        var d := ds[n - 1];
        match ParseInt(d[0])
        case None => Failure(NotAnInteger(d[0]))
        case Some(tag) =>
          if tag != k then Success(acc)
          else
            match unpack(d)
            case Failure(e) => Failure(e)
            case Success(x) => Success(acc + [x])
  }

  lemma {:induction false} CollectedFailureSticks<T>(ds: seq<seq<string>>, k: int, unpack: seq<string> --> Result<T, DirectiveError>, i: nat, n: nat)
    requires i <= n <= |ds|
    requires forall d :: d in ds ==> |d| > 0 && unpack.requires(d)
    requires Collected(ds, k, unpack, i).Failure?
    ensures Collected(ds, k, unpack, n) == Collected(ds, k, unpack, i)
  {
    if n > i {
      CollectedFailureSticks(ds, k, unpack, i, n - 1);
    }
  }

  /** Collecting succeeds exactly when every tag reads as an integer and
      every directive of subsystem k unpacks. */
  lemma {:induction false} CollectedSucceeds<T>(ds: seq<seq<string>>, k: int, unpack: seq<string> --> Result<T, DirectiveError>, n: nat)
    requires n <= |ds|
    requires forall d :: d in ds ==> |d| > 0 && unpack.requires(d)
    ensures Collected(ds, k, unpack, n).Success? <==>
      forall i :: 0 <= i < n ==> ParseInt(ds[i][0]).Some? && (ParseInt(ds[i][0]) == Some(k) ==> unpack(ds[i]).Success?)
  {
    if n > 0 {
      CollectedSucceeds(ds, k, unpack, n - 1);
    }
  }

  /** On success the result is the unpacking of exactly the directives of
      subsystem k, in their order: none of another subsystem appears. */
  lemma {:induction false} CollectedIsTagged<T>(ds: seq<seq<string>>, k: int, unpack: seq<string> --> Result<T, DirectiveError>, n: nat)
    requires n <= |ds|
    requires forall d :: d in ds ==> |d| > 0 && unpack.requires(d)
    requires Collected(ds, k, unpack, n).Success?
    ensures var r := Collected(ds, k, unpack, n).value;
      var t := Tagged(ds, k, n);
      && |r| == |t|
      && forall i :: 0 <= i < |t| ==> unpack(t[i]) == Success(r[i])
  {
    if n > 0 {
      CollectedIsTagged(ds, k, unpack, n - 1);
      var d := ds[n - 1];
      var prev := Tagged(ds, k, n - 1);
      var acc := Collected(ds, k, unpack, n - 1).value;
      if ParseInt(d[0]) == Some(k) {
        assert Tagged(ds, k, n) == prev + [d];
        assert Collected(ds, k, unpack, n).value == acc + [unpack(d).value];
      } else {
        assert Tagged(ds, k, n) == prev;
        assert Collected(ds, k, unpack, n).value == acc;
      }
    }
  }

  function DistanceUnpacker(toFloat: string -> Option<real>): seq<string> --> Result<DistanceRestraint, DirectiveError> {
    d requires |d| == DistanceArity => UnpackDistance(d, toFloat)
  }

  function AngleUnpacker(toFloat: string -> Option<real>): seq<string> --> Result<AngleRestraint, DirectiveError> {
    d requires |d| == AngleArity => UnpackAngle(d, toFloat)
  }

  function TransformUnpacker(toFloat: string -> Option<real>): seq<string> --> Result<Transform, DirectiveError> {
    d requires |d| == TransformArity => UnpackTransform(d, toFloat)
  }

  /** One of the appending loops of main for subsystem k. */
  method CollectDirectives<T>(ds: seq<seq<string>>, k: int, unpack: seq<string> --> Result<T, DirectiveError>) returns (r: Result<seq<T>, DirectiveError>)
    requires forall d :: d in ds ==> |d| > 0 && unpack.requires(d)
    ensures r == Collected(ds, k, unpack, |ds|)
  {
    var kept := [];
    for n := 0 to |ds|
      invariant Collected(ds, k, unpack, n) == Success(kept)
    {
      var d := ds[n];
      var tag := ParseInt(d[0]);
      if tag.None? {
        CollectedFailureSticks(ds, k, unpack, n + 1, |ds|);
        return Failure(NotAnInteger(d[0]));
      }
      if tag.value == k {
        var x := unpack(d);
        if x.Failure? {
          CollectedFailureSticks(ds, k, unpack, n + 1, |ds|);
          return Failure(x.error);
        }
        kept := kept + [x.value];
      }
    }
    r := Success(kept);
  }

  /** What subsystem k records: its distance restraints, angle restraints
      and transforms. */
  datatype SubsystemDirectives = SubsystemDirectives(distances: seq<DistanceRestraint>, angles: seq<AngleRestraint>, transforms: seq<Transform>)

  /** The directive handling of main for subsystem k: distance restraints,
      then angle restraints, then transforms, the first ValueError ending it.
      An option not given on the command line is an empty list here. */
  method CollectSubsystemDirectives(distances: seq<seq<string>>, angles: seq<seq<string>>, transforms: seq<seq<string>>, k: int, toFloat: string -> Option<real>)
    returns (r: Result<SubsystemDirectives, DirectiveError>)
    requires forall d :: d in distances ==> |d| == DistanceArity
    requires forall d :: d in angles ==> |d| == AngleArity
    requires forall d :: d in transforms ==> |d| == TransformArity
    ensures r.Success? <==>
      && Collected(distances, k, DistanceUnpacker(toFloat), |distances|).Success?
      && Collected(angles, k, AngleUnpacker(toFloat), |angles|).Success?
      && Collected(transforms, k, TransformUnpacker(toFloat), |transforms|).Success?
    ensures r.Success? ==>
      && r.value.distances == Collected(distances, k, DistanceUnpacker(toFloat), |distances|).value
      && r.value.angles == Collected(angles, k, AngleUnpacker(toFloat), |angles|).value
      && r.value.transforms == Collected(transforms, k, TransformUnpacker(toFloat), |transforms|).value
    ensures r.Failure? ==>
      r.error == if Collected(distances, k, DistanceUnpacker(toFloat), |distances|).Failure?
                 then Collected(distances, k, DistanceUnpacker(toFloat), |distances|).error
                 else if Collected(angles, k, AngleUnpacker(toFloat), |angles|).Failure?
                 then Collected(angles, k, AngleUnpacker(toFloat), |angles|).error
                 else Collected(transforms, k, TransformUnpacker(toFloat), |transforms|).error
  {
    var ds := CollectDirectives(distances, k, DistanceUnpacker(toFloat));
    if ds.Failure? {
      return Failure(ds.error);
    }
    var angs := CollectDirectives(angles, k, AngleUnpacker(toFloat));
    if angs.Failure? {
      return Failure(angs.error);
    }
    var ts := CollectDirectives(transforms, k, TransformUnpacker(toFloat));
    if ts.Failure? {
      return Failure(ts.error);
    }
    r := Success(SubsystemDirectives(ds.value, angs.value, ts.value));
  }
}
