/** The one shape a `memory(...)` attribute is kept in, however it was written. */
module MemoryEffects {
  import opened Wrappers

  /** The three locations the attribute knows, in the order they are written. */
  datatype Location = ArgMem | InaccessibleMem | ErrnoMem | Unknown(name: string)

  datatype Kind = NoAccess | Access(name: string)

  /** One of the arguments: an access to everything not named, or to one location. */
  datatype Part = Default(kind: Kind) | At(location: Location, kind: Kind)

  function LocationAt(i: nat): Location
    requires i < 3
  {
    if i == 0 then ArgMem else if i == 1 then InaccessibleMem else ErrnoMem
  }

  function Rank(l: Location): nat {
    match l case ArgMem => 0 case InaccessibleMem => 1 case ErrnoMem => 2 case Unknown(_) => 3
  }

  // ------------------------------------------------------------------------ meaning

  /** What everything not named is: the last default stated, or none. */
  function DefaultOf(parts: seq<Part>): Kind {
    if parts == [] then NoAccess
    else if parts[|parts| - 1].Default? then parts[|parts| - 1].kind
    else DefaultOf(parts[..|parts| - 1])
  }

  /** The first access stated for a location. */
  function StatedAt(parts: seq<Part>, location: Location): Option<Kind> {
    if parts == [] then None
    else if parts[0].At? && parts[0].location == location then Some(parts[0].kind)
    else StatedAt(parts[1..], location)
  }

  function AccessOf(parts: seq<Part>, location: Location): Kind {
    match StatedAt(parts, location) case Some(kind) => kind case None => DefaultOf(parts)
  }

  /** The two lists allow the same accesses, to the known locations and to the rest. */
  predicate MeansSame(a: seq<Part>, b: seq<Part>) {
    && DefaultOf(a) == DefaultOf(b)
    && forall i :: 0 <= i < 3 ==> AccessOf(a, LocationAt(i)) == AccessOf(b, LocationAt(i))
  }

  // -------------------------------------------------------------------- canonical form

  /** A location that says what the default says is not written. */
  function Worded(parts: seq<Part>, location: Location): seq<Part> {
    var stated := StatedAt(parts, location);
    if stated.Some? && stated.value != DefaultOf(parts) then [At(location, stated.value)] else []
  }

  function WordedUpTo(parts: seq<Part>, n: nat): seq<Part>
    requires n <= 3
  {
    if n > 0 then WordedUpTo(parts, n - 1) + Worded(parts, LocationAt(n - 1))
    else if DefaultOf(parts) != NoAccess then [Default(DefaultOf(parts))]
    else []
  }

  function Canonical(parts: seq<Part>): seq<Part> {
    if WordedUpTo(parts, 3) == [] then [Default(DefaultOf(parts))] else WordedUpTo(parts, 3)
  }

  method CanonicalMemory(parts: seq<Part>) returns (written: seq<Part>)
    ensures written == Canonical(parts)
  {
    var default_ := NoAccess;
    for i := 0 to |parts|
      invariant default_ == DefaultOf(parts[..i])
    {
      assert parts[..i + 1][..i] == parts[..i];
      if parts[i].Default? {
        default_ := parts[i].kind;
      }
    }
    assert parts[..|parts|] == parts;
    written := if default_ != NoAccess then [Default(default_)] else [];
    for i := 0 to 3
      invariant written == WordedUpTo(parts, i)
    {
      var stated := StatedAt(parts, LocationAt(i));
      if stated.Some? && stated.value != default_ {
        written := written + [At(LocationAt(i), stated.value)];
      }
    }
    if written == [] {
      written := [Default(default_)];
    }
  }

  // ------------------------------------------------------------------------ properties

  lemma {:induction false} SameMeaningSameWords(a: seq<Part>, b: seq<Part>, n: nat)
    requires MeansSame(a, b) && n <= 3
    ensures WordedUpTo(a, n) == WordedUpTo(b, n)
  {
    if n > 0 {
      SameMeaningSameWords(a, b, n - 1);
      assert AccessOf(a, LocationAt(n - 1)) == AccessOf(b, LocationAt(n - 1));
    }
  }

  lemma DefaultAppend(a: seq<Part>, p: Part)
    ensures DefaultOf(a + [p]) == if p.Default? then p.kind else DefaultOf(a)
  {
    assert (a + [p])[..|a|] == a;
  }

  lemma {:induction false} StatedAppend(a: seq<Part>, p: Part, l: Location)
    ensures StatedAt(a + [p], l) ==
            if StatedAt(a, l).Some? then StatedAt(a, l) else if p.At? && p.location == l then Some(p.kind) else None
  {
    if a != [] {
      assert (a + [p])[1..] == a[1..] + [p];
      StatedAppend(a[1..], p, l);
    }
  }

  /** What the words written so far say. */
  lemma {:induction false} WordsSay(parts: seq<Part>, n: nat, l: Location)
    requires n <= 3
    ensures DefaultOf(WordedUpTo(parts, n)) == DefaultOf(parts)
    ensures StatedAt(WordedUpTo(parts, n), l) ==
            if Rank(l) < n && AccessOf(parts, l) != DefaultOf(parts) then Some(AccessOf(parts, l)) else None
  {
    if n > 0 {
      WordsSay(parts, n - 1, l);
      var here := LocationAt(n - 1);
      if Worded(parts, here) != [] {
        DefaultAppend(WordedUpTo(parts, n - 1), Worded(parts, here)[0]);
        StatedAppend(WordedUpTo(parts, n - 1), Worded(parts, here)[0], l);
      } else {
        assert WordedUpTo(parts, n) == WordedUpTo(parts, n - 1);
      }
    }
  }

  /** The canonical form allows what was written, of every known location and of the rest. */
  lemma FormKeepsMeaning(parts: seq<Part>)
    ensures MeansSame(Canonical(parts), parts)
  {
    WordsSay(parts, 3, ArgMem);
    forall i | 0 <= i < 3 ensures AccessOf(Canonical(parts), LocationAt(i)) == AccessOf(parts, LocationAt(i)) {
      WordsSay(parts, 3, LocationAt(i));
      assert Rank(LocationAt(i)) < 3;
      DefaultAppend([], Default(DefaultOf(parts)));
      StatedAppend([], Default(DefaultOf(parts)), LocationAt(i));
      assert [] + [Default(DefaultOf(parts))] == [Default(DefaultOf(parts))];
    }
  }

  /** And it is a complete normal form: two lists have the same one exactly when they allow
  the same. */
  lemma SameFormExactly(a: seq<Part>, b: seq<Part>)
    ensures Canonical(a) == Canonical(b) <==> MeansSame(a, b)
  {
    FormKeepsMeaning(a);
    FormKeepsMeaning(b);
    if MeansSame(a, b) {
      SameMeaningSameWords(a, b, 3);
    }
  }

  lemma FormIsItsOwn(parts: seq<Part>)
    ensures Canonical(Canonical(parts)) == Canonical(parts)
  {
    FormKeepsMeaning(parts);
    SameFormExactly(Canonical(parts), parts);
  }
}
