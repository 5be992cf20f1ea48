/**
 The static airport directory of script.js (`getAirportDatabase`) and the
 directory half of `getAirportCoordinates`.

 The directory is a JavaScript object literal. Its keys are airport codes,
 none of them an array index (an all-digit key would be listed first) nor
 `__proto__`, so Object.entries lists them in insertion order, and a key
 written twice (`'KIAH'` appears
 at lines 772 and 795) keeps the position of its first writing and takes the
 value of its last. The model therefore keeps the directory as a sequence of
 entries with distinct codes, built from the literal by `ObjectLiteral`, and
 `DirMap` is its code -> airport map.
 */
module Airports {
  import opened Text
  import opened Opt

  datatype Coord = Coord(lat: real, lon: real)

  datatype Airport = Airport(name: string, city: string, country: string, coords: Coord)

  datatype Entry = Entry(code: string, airport: Airport)

  type Directory = seq<Entry>

  predicate DistinctCodes(d: Directory)
  {
    forall i, j :: 0 <= i < j < |d| ==> d[i].code != d[j].code
  }

  /** The code -> airport map of a sequence of assignments, a later assignment
      overriding an earlier one. */
  function DirMap(d: Directory): map<string, Airport>
  {
    if |d| == 0 then map[]
    else DirMap(d[..|d| - 1])[d[|d| - 1].code := d[|d| - 1].airport]
  }

  /** With distinct codes, the map holds exactly the entries of the directory. */
  lemma {:induction false} DirMapEntries(d: Directory)
    requires DistinctCodes(d)
    ensures forall c :: c in DirMap(d) <==> exists i :: 0 <= i < |d| && d[i].code == c
    ensures forall i :: 0 <= i < |d| ==> DirMap(d)[d[i].code] == d[i].airport
  {
    if |d| > 0 {
      var p := d[..|d| - 1];
      DirMapEntries(p);
      forall c | c in DirMap(d)
        ensures exists i :: 0 <= i < |d| && d[i].code == c
      {
        if c != d[|d| - 1].code {
          assert c in DirMap(p);
          var i :| 0 <= i < |p| && p[i].code == c;
          assert d[i].code == c;
        }
      }
    }
  }

  /** The first position holding the code, if any. */
  function IndexOf(d: Directory, code: string): (r: Option<nat>)
    ensures r.Some? ==> r.value < |d| && d[r.value].code == code
    ensures r.None? ==> forall j :: 0 <= j < |d| ==> d[j].code != code
  {
    if |d| == 0 then None
    else if d[0].code == code then Some(0)
    else match IndexOf(d[1..], code)
      case Some(j) => Some(j + 1)
      case None => None
  }

  /** One `code: airport` property of the object literal: an existing key keeps
      its position and takes the new value, a new key is appended. */
  function Define(d: Directory, code: string, a: Airport): (r: Directory)
    ensures |r| >= |d|
    ensures DistinctCodes(d) ==> DistinctCodes(r)
    ensures DistinctCodes(d) ==>
      forall j :: 0 <= j < |d| ==> r[j] == (if d[j].code == code then Entry(code, a) else d[j])
    ensures (exists j :: 0 <= j < |d| && d[j].code == code) ==> |r| == |d|
    ensures (forall j :: 0 <= j < |d| ==> d[j].code != code) ==> r == d + [Entry(code, a)]
  {
    match IndexOf(d, code)
    case Some(j) => d[j := Entry(code, a)]
    case None => d + [Entry(code, a)]
  }

  /** Defining a key updates the map at that key and nowhere else. */
  lemma DefineMap(d: Directory, code: string, a: Airport)
    requires DistinctCodes(d)
    ensures DirMap(Define(d, code, a)) == DirMap(d)[code := a]
  {
    match IndexOf(d, code)
    case None =>
      assert Define(d, code, a)[..|d|] == d;
    case Some(j) =>
      ReplaceMap(d, j, a);
  }

  lemma ReplaceMap(d: Directory, j: nat, a: Airport)
    requires DistinctCodes(d) && j < |d|
    ensures DirMap(d[j := Entry(d[j].code, a)]) == DirMap(d)[d[j].code := a]
  {
    var code := d[j].code;
    var r := d[j := Entry(code, a)];
    var m := DirMap(d)[code := a];
    assert DistinctCodes(r);
    DirMapEntries(d);
    DirMapEntries(r);
    forall c | c in DirMap(r)
      ensures c in m && DirMap(r)[c] == m[c]
    {
      var i :| 0 <= i < |r| && r[i].code == c;
      if i != j {
        assert r[i] == d[i];
      }
    }
    forall c | c in m
      ensures c in DirMap(r)
    {
      if c != code {
        var i :| 0 <= i < |d| && d[i].code == c;
        assert r[i] == d[i];
      } else {
        assert r[j].code == code;
      }
    }
    assert DirMap(r).Keys == m.Keys;
  }

  /** The directory an object literal with these properties evaluates to. */
  function ObjectLiteral(pairs: seq<Entry>): (r: Directory)
    ensures DistinctCodes(r)
  {
    if |pairs| == 0 then []
    else
      var last := pairs[|pairs| - 1];
      Define(ObjectLiteral(pairs[..|pairs| - 1]), last.code, last.airport)
  }

  /** The literal's keys are the written keys, and each maps to the value written
      last for it. */
  lemma {:induction false} ObjectLiteralLastWins(pairs: seq<Entry>)
    ensures DirMap(ObjectLiteral(pairs)) == DirMap(pairs)
  {
    if |pairs| > 0 {
      var p := pairs[..|pairs| - 1];
      var last := pairs[|pairs| - 1];
      ObjectLiteralLastWins(p);
      DefineMap(ObjectLiteral(p), last.code, last.airport);
    }
  }

  /** Writing a key already present adds no entry. */
  lemma RepeatedKeyAddsNothing(pairs: seq<Entry>, e: Entry)
    requires exists i :: 0 <= i < |pairs| && pairs[i].code == e.code
    ensures |ObjectLiteral(pairs + [e])| == |ObjectLiteral(pairs)|
  {
    var d := ObjectLiteral(pairs);
    assert (pairs + [e])[..|pairs|] == pairs;
    ObjectLiteralLastWins(pairs);
    DirMapEntries(d);
    assert e.code in DirMap(pairs) by {
      DirMapHasWritten(pairs, e.code);
    }
  }

  /** Every written key is in the map of the writes. */
  lemma {:induction false} DirMapHasWritten(d: Directory, c: string)
    requires exists i :: 0 <= i < |d| && d[i].code == c
    ensures c in DirMap(d)
  {
    if d[|d| - 1].code != c {
      var i :| 0 <= i < |d| && d[i].code == c;
      assert d[..|d| - 1][i].code == c;
      DirMapHasWritten(d[..|d| - 1], c);
    }
  }

  /** The fixed coordinate used when no lookup succeeds (script.js:505). */
  const Fallback := Coord(39.8283, -98.5795)

  predicate IsCodeChar(c: char)
  {
    'A' <= c <= 'Z' || '0' <= c <= '9'
  }

  /** `airportCode.replace(/[^A-Z0-9]/g, '')`: keeps upper-case letters and
      digits, in order; lower-case letters are removed too. */
  function CleanCode(s: string): (r: string)
    ensures forall i :: 0 <= i < |r| ==> IsCodeChar(r[i])
    ensures (forall i :: 0 <= i < |s| ==> IsCodeChar(s[i])) ==> r == s
    ensures |r| <= |s|
  {
    if |s| == 0 then ""
    else
      assert s == [s[0]] + s[1..];
      (if IsCodeChar(s[0]) then [s[0]] else "") + CleanCode(s[1..])
  }

  /** One character is kept exactly when it is a code character. */
  lemma CleanCodeOne(c: char)
    ensures CleanCode([c]) == if IsCodeChar(c) then [c] else []
  {
    assert [c][1..] == [];
  }

  /** Cleaning works character by character: the cleaned halves, in order,
      make up the cleaned whole, so every code character is kept in place. */
  lemma {:induction false} CleanCodeAppend(a: string, b: string)
    ensures CleanCode(a + b) == CleanCode(a) + CleanCode(b)
    decreases |a|
  {
    if |a| > 0 {
      assert (a + b)[1..] == a[1..] + b;
      assert (a + b)[0] == a[0];
      CleanCodeAppend(a[1..], b);
    } else {
      assert a + b == b;
    }
  }

  /** Cleaning a cleaned code changes nothing. */
  lemma CleanCodeIdempotent(s: string)
    ensures CleanCode(CleanCode(s)) == CleanCode(s)
  {
  }

  /** The directory part of `getAirportCoordinates`: the coordinates of the
      cleaned code's entry, or nothing when the directory has no such key. */
  function DirectoryCoords(d: Directory, code: string): (r: Option<Coord>)
    requires DistinctCodes(d)
    ensures r.Some? <==> exists i :: 0 <= i < |d| && d[i].code == CleanCode(code)
    ensures forall i :: 0 <= i < |d| && d[i].code == CleanCode(code) ==> r == Some(d[i].airport.coords)
  {
    DirMapEntries(d);
    var c := CleanCode(code);
    if c in DirMap(d) then Some(DirMap(d)[c].coords) else None
  }

  /** `getAirportCoordinates` with the network lookup as a parameter: the
      directory wins, then a successful geocoding answer, then the fallback. */
  function ResolveCoords(d: Directory, code: string, geocoded: Option<Coord>): (r: Coord)
    requires DistinctCodes(d)
    ensures DirectoryCoords(d, code).Some? ==> r == DirectoryCoords(d, code).value
    ensures DirectoryCoords(d, code).None? && geocoded.Some? ==> r == geocoded.value
    ensures DirectoryCoords(d, code).None? && geocoded.None? ==> r == Fallback
  {
    match DirectoryCoords(d, code)
    case Some(c) => c
    case None => if geocoded.Some? then geocoded.value else Fallback
  }

  /** Noise around a code does not change where it resolves. */
  lemma DirectoryCoordsIgnoresNoise(d: Directory, code: string)
    requires DistinctCodes(d)
    ensures DirectoryCoords(d, CleanCode(code)) == DirectoryCoords(d, code)
  {
    CleanCodeIdempotent(code);
  }

  const Houston := Airport("George Bush Intercontinental Airport", "Houston", "US", Coord(29.9902, -95.3368))

  const Hobby := Airport("William P. Hobby Airport", "Houston", "US", Coord(29.6465, -95.2789))

  /** The Houston part of the directory literal, in source order, with KIAH
      written a second time before KHOU. */
  const HoustonPairs := [Entry("KIAH", Houston), Entry("IAH", Houston), Entry("KIAH", Houston),
                         Entry("KHOU", Hobby), Entry("HOU", Hobby)]

  /** Evaluating one more property with a new key appends it. */
  lemma LiteralStepFresh(p: seq<Entry>, k: nat, d: Directory)
    requires k < |p| && ObjectLiteral(p[..k]) == d
    requires forall j :: 0 <= j < |d| ==> d[j].code != p[k].code
    ensures ObjectLiteral(p[..k + 1]) == d + [p[k]]
  {
    assert p[..k + 1][..k] == p[..k];
  }

  /** Evaluating one more property with a key already written replaces the
      value in place. */
  lemma LiteralStepRepeat(p: seq<Entry>, k: nat, d: Directory, j: nat)
    requires k < |p| && ObjectLiteral(p[..k]) == d
    requires j < |d| && d[j].code == p[k].code
    ensures ObjectLiteral(p[..k + 1]) == d[j := Entry(p[k].code, p[k].airport)]
  {
    assert p[..k + 1][..k] == p[..k];
  }

  /** Three writes whose third repeats the first key give two entries. */
  lemma FirstThreeWrites(p: seq<Entry>)
    requires |p| >= 3 && p[2].code == p[0].code && p[0].code != p[1].code
    ensures ObjectLiteral(p[..3]) == [Entry(p[0].code, p[2].airport), p[1]]
  {
    assert p[..0] == [];
    LiteralStepFresh(p, 0, []);
    assert [] + [p[0]] == [p[0]];
    LiteralStepFresh(p, 1, [p[0]]);
    assert [p[0]] + [p[1]] == [p[0], p[1]];
    LiteralStepRepeat(p, 2, [p[0], p[1]], 0);
    assert [p[0], p[1]][0 := Entry(p[0].code, p[2].airport)] == [Entry(p[0].code, p[2].airport), p[1]];
  }

  /** Five writes whose third repeats the first key: the repeat adds no entry
      and only replaces the first entry's value. */
  lemma FiveWritesOneRepeated(p: seq<Entry>)
    requires |p| == 5 && p[2].code == p[0].code
    requires p[0].code != p[1].code && p[0].code != p[3].code && p[0].code != p[4].code
    requires p[1].code != p[3].code && p[1].code != p[4].code && p[3].code != p[4].code
    ensures ObjectLiteral(p) == [Entry(p[0].code, p[2].airport), p[1], p[3], p[4]]
  {
    var e0 := Entry(p[0].code, p[2].airport);
    FirstThreeWrites(p);
    LiteralStepFresh(p, 3, [e0, p[1]]);
    assert [e0, p[1]] + [p[3]] == [e0, p[1], p[3]];
    LiteralStepFresh(p, 4, [e0, p[1], p[3]]);
    assert [e0, p[1], p[3]] + [p[4]] == [e0, p[1], p[3], p[4]];
    assert p[..5] == p;
  }

  /** The repeated KIAH leaves one entry, at its first place. */
  lemma HoustonDirectory()
    ensures ObjectLiteral(HoustonPairs) == [HoustonPairs[0], HoustonPairs[1], HoustonPairs[3], HoustonPairs[4]]
  {
    var p := HoustonPairs;
    assert "KIAH"[1] != "KHOU"[1];
    FiveWritesOneRepeated(p);
  }

}
