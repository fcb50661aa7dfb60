/** Numbers written with the highest byte first. */
module BigEndian {
  import opened Common

  /** The lowest `n` bytes of a number. */
  function Pack(v: nat, n: nat): (r: seq<Byte>)
    ensures |r| == n
  {
    if n == 0 then [] else Pack(v / 256, n - 1) + [v % 256]
  }

  function Unpack(b: seq<Byte>): nat {
    if b == [] then 0 else 256 * Unpack(b[..|b| - 1]) + b[|b| - 1]
  }

  function Limit(n: nat): nat {
    if n == 0 then 1 else 256 * Limit(n - 1)
  }

  lemma {:induction false} UnpackPack(v: nat, n: nat)
    requires v < Limit(n)
    ensures Unpack(Pack(v, n)) == v
  {
    if n == 0 {
    } else {
      UnpackPack(v / 256, n - 1);
      assert Pack(v, n)[..n - 1] == Pack(v / 256, n - 1);
    }
  }

  lemma {:induction false} PackUnpack(b: seq<Byte>)
    ensures Unpack(b) < Limit(|b|) && Pack(Unpack(b), |b|) == b
  {
    if b == [] {
    } else {
      PackUnpack(b[..|b| - 1]);
      assert b == b[..|b| - 1] + [b[|b| - 1]];
    }
  }
}

/**
  Cutting a byte stream back into the units it was made of. The stream arrives in arbitrary pieces,
  and a cutter looks at the bytes buffered so far.
 */
module Reassembly {
  import opened Common

  datatype Cut = More | Unit(size: nat) | Bad

  type Cutter = seq<Byte> -> Cut

  /** The cutter recognises the unit as soon as all of it is there, whatever follows, and not before. */
  ghost predicate SelfDelimiting(cut: Cutter, u: seq<Byte>) {
    && u != []
    && (forall tail :: cut(u + tail) == Unit(|u|))
    && (forall k :: 0 <= k < |u| ==> cut(u[..k]) == More)
  }

  function Stream(units: seq<seq<Byte>>): seq<Byte> {
    if units == [] then [] else units[0] + Stream(units[1..])
  }

  /** Bytes buffered, bytes still to arrive, and units taken so far. */
  datatype State = State(buffer: seq<Byte>, pending: seq<Byte>, taken: seq<seq<Byte>>, bad: bool)

  /** The next so many bytes are offered, or the reader tries to take a unit. */
  datatype Action = Arrive(n: nat) | Take

  /** Bytes for which the buffer has no room are refused and stay with whoever offers them. */
  function Step(cut: Cutter, room: Option<nat>, s: State, a: Action): State {
    match a
    case Arrive(n) =>
      var k := Min(n, |s.pending|);
      if room.Some? && |s.buffer| + k > room.value then s
      else s.(buffer := s.buffer + s.pending[..k], pending := s.pending[k..])
    case Take =>
      var c := cut(s.buffer);
      if c.More? then s
      else if c.Bad? || c.size > |s.buffer| then s.(bad := true)
      else s.(buffer := s.buffer[c.size..], taken := s.taken + [s.buffer[..c.size]])
  }

  function Run(cut: Cutter, room: Option<nat>, s: State, actions: seq<Action>): State
    decreases |actions|
  {
    if actions == [] then s else Run(cut, room, Step(cut, room, s, actions[0]), actions[1..])
  }

  /** What was taken is the first units; what is left is exactly the others. */
  ghost predicate InStep(s: State, units: seq<seq<Byte>>) {
    && |s.taken| <= |units| && s.taken == units[..|s.taken|] && !s.bad
    && s.buffer + s.pending == Stream(units[|s.taken|..])
  }

  lemma {:induction false} Split(buffer: seq<Byte>, pending: seq<Byte>, u: seq<Byte>, rest: seq<Byte>)
    requires buffer + pending == u + rest
    ensures |buffer| < |u| ==> buffer == u[..|buffer|]
    ensures |buffer| >= |u| ==> buffer == u + buffer[|u|..] && buffer[|u|..] + pending == rest
  {
    var whole := u + rest;
    assert whole[..|buffer|] == buffer && whole[|u|..] == rest;
    if |buffer| < |u| {
      assert u[..|buffer|] == whole[..|buffer|];
    } else {
      assert buffer[..|u|] == whole[..|u|] == u;
      assert (buffer + pending)[|u|..] == buffer[|u|..] + pending;
    }
  }

  /** While the stream is in step, a take gives the next unit if it is complete and nothing if not. */
  lemma {:induction false} TakeGives(cut: Cutter, s: State, units: seq<seq<Byte>>)
    requires InStep(s, units) && |s.taken| < |units| && SelfDelimiting(cut, units[|s.taken|])
    ensures var u := units[|s.taken|];
            if |s.buffer| < |u| then cut(s.buffer) == More
            else cut(s.buffer) == Unit(|u|) && s.buffer[..|u|] == u
                 && s.buffer[|u|..] + s.pending == Stream(units[|s.taken| + 1..])
  {
    var u := units[|s.taken|];
    assert units[|s.taken|..][0] == u && units[|s.taken|..][1..] == units[|s.taken| + 1..];
    Split(s.buffer, s.pending, u, Stream(units[|s.taken| + 1..]));
  }

  lemma {:induction false} StepKeeps(cut: Cutter, room: Option<nat>, s: State, units: seq<seq<Byte>>, a: Action)
    requires InStep(s, units) && cut([]) == More
    requires forall i :: 0 <= i < |units| ==> SelfDelimiting(cut, units[i])
    ensures InStep(Step(cut, room, s, a), units)
  {
    match a {
      case Arrive(n) =>
        var k := Min(n, |s.pending|);
        assert s.pending == s.pending[..k] + s.pending[k..];
      case Take =>
        if |s.taken| < |units| {
          TakeGives(cut, s, units);
        } else {
          assert units[|s.taken|..] == [];
          assert s.buffer == [];
        }
    }
  }

  /** In every run the units come out whole, in order and without error, however the bytes arrive. */
  lemma {:induction false} RunKeeps(cut: Cutter, room: Option<nat>, s: State, units: seq<seq<Byte>>, actions: seq<Action>)
    requires InStep(s, units) && cut([]) == More
    requires forall i :: 0 <= i < |units| ==> SelfDelimiting(cut, units[i])
    ensures InStep(Run(cut, room, s, actions), units)
    decreases |actions|
  {
    if actions == [] {
    } else {
      StepKeeps(cut, room, s, units, actions[0]);
      RunKeeps(cut, room, Step(cut, room, s, actions[0]), units, actions[1..]);
    }
  }

  function Start(units: seq<seq<Byte>>): State {
    State([], Stream(units), [], false)
  }

  lemma {:induction false} StartInStep(units: seq<seq<Byte>>)
    ensures InStep(Start(units), units)
  {
    assert units[0..] == units;
  }

  /** Once all bytes have arrived and nothing more can be taken, every unit has come out. */
  lemma {:induction false} DrainedMeansAll(cut: Cutter, s: State, units: seq<seq<Byte>>)
    requires InStep(s, units) && s.pending == [] && cut(s.buffer) == More
    requires forall i :: 0 <= i < |units| ==> SelfDelimiting(cut, units[i])
    ensures s.taken == units && s.buffer == []
  {
    if |s.taken| < |units| {
      TakeGives(cut, s, units);
      assert false;
    }
  }
}
