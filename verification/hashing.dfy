/** The salted password hash: 1000 rounds of in-place mixing over 32 bytes. */
module Hashing {
  import opened Bits
  import opened CBytes

  const STATE_SIZE: nat := 32
  const ROUNDS: nat := 1000

  type State = s: Bytes | |s| == 32 witness seq(32, _ => 0)

  /** What password, salt and round contribute to position i. */
  function Contribution(password: Bytes, salt: Bytes, round: nat, i: nat): int {
    var p: int := if |password| > 0 then password[(i + round) % |password|] else 0;
    var s: int := if |salt| > 0 then salt[(i * round) % |salt|] else 0;
    p + s + round
  }

  function After(i: nat, n: nat): (r: nat)
    requires i < STATE_SIZE && 0 < n < STATE_SIZE
    ensures r < STATE_SIZE && r != i
    ensures r == (i + n) % STATE_SIZE
  {
    if i + n < STATE_SIZE then i + n else i + n - STATE_SIZE
  }

  /** What the two bytes after position i contribute, cyclically. */
  function Neighbours(h: State, i: nat): Byte
    requires i < STATE_SIZE
  {
    OrByte(ShiftRight(h[After(i, 1)]), ShiftLeft(h[After(i, 2)]))
  }

  function MixByte(x: Byte, k: int, f: Byte): Byte {
    XorByte(Plus(x, k), f)
  }

  function UnmixByte(x: Byte, k: int, f: Byte): Byte {
    Minus(XorByte(x, f), k)
  }

  function MixAt(h: State, i: nat, k: int): (r: State)
    requires i < STATE_SIZE
  {
    h[i := MixByte(h[i], k, Neighbours(h, i))]
  }

  function UnmixAt(h: State, i: nat, k: int): (r: State)
    requires i < STATE_SIZE
  {
    h[i := UnmixByte(h[i], k, Neighbours(h, i))]
  }

  /** Positions i .. 31 of one round. */
  function MixRound(h: State, password: Bytes, salt: Bytes, round: nat, i: nat): State
    requires i <= STATE_SIZE
    decreases STATE_SIZE - i
  {
    if i == STATE_SIZE then h
    else MixRound(MixAt(h, i, Contribution(password, salt, round, i)), password, salt, round, i + 1)
  }

  /** Rounds round .. 999. */
  function MixRounds(h: State, password: Bytes, salt: Bytes, round: nat): State
    requires round <= ROUNDS
    decreases ROUNDS - round
  {
    if round == ROUNDS then h
    else MixRounds(MixRound(h, password, salt, round, 0), password, salt, round + 1)
  }

  // The mixing in the arithmetic of the source

  /** What the step at position i of a round does to the state h: integers, the
      position and the round as they are written in the loops. */
  ghost predicate Mixes(h: State, r: State, password: Bytes, salt: Bytes, round: nat, i: nat)
    requires i < 32
  {
    var p: int := if password == [] then 0 else password[(i + round) % |password|];
    var s: int := if salt == [] then 0 else salt[(i * round) % |salt|];
    var now: int, next: int, afterNext: int := h[i], h[(i + 1) % 32], h[(i + 2) % 32];
    && r[i] == Xor((now + p + s + round) % 256, Or(next / 2, 128 * (afterNext % 2)))
    && forall j :: 0 <= j < 32 && j != i ==> r[j] == h[j]
  }

  lemma MixedByte(h: State, i: nat, k: int)
    requires i < 32
    ensures var now: int, next: int, afterNext: int := h[i], h[(i + 1) % 32], h[(i + 2) % 32];
            MixAt(h, i, k)[i] == Xor((now + k) % 256, Or(next / 2, 128 * (afterNext % 2)))
  {
    hide Xor, Or, After;
  }

  lemma MixesAt(h: State, password: Bytes, salt: Bytes, round: nat, i: nat)
    requires i < 32
    ensures Mixes(h, MixAt(h, i, Contribution(password, salt, round, i)), password, salt, round, i)
  {
    hide Xor, Or, MixByte, Neighbours;
    MixedByte(h, i, Contribution(password, salt, round, i));
  }

  /** The states that the two loops go through: 1000 rounds of 32 steps, from 32
      zeros on. */
  ghost predicate IsTrace(password: Bytes, salt: Bytes, trace: seq<State>) {
    && |trace| == 32001 && trace[0] == seq(32, _ => 0)
    && forall n :: 0 <= n < 32000 ==> Mixes(trace[n], trace[n + 1], password, salt, n / 32, n % 32)
  }

  lemma MixesOnce(h: State, r: State, password: Bytes, salt: Bytes, round: nat, i: nat)
    requires i < 32 && Mixes(h, r, password, salt, round, i)
    ensures r == MixAt(h, i, Contribution(password, salt, round, i))
  {
    MixesAt(h, password, salt, round, i);
  }

  lemma {:induction false} TraceOfRound(password: Bytes, salt: Bytes, trace: seq<State>, round: nat, i: nat)
    requires IsTrace(password, salt, trace) && round < 1000 && i <= 32
    ensures MixRound(trace[32 * round + i], password, salt, round, i) == trace[32 * (round + 1)]
    decreases 32 - i
  {
    hide Mixes, MixAt, Contribution;
    if i < 32 {
      var n := 32 * round + i;
      assert n / 32 == round && n % 32 == i;
      MixesOnce(trace[n], trace[n + 1], password, salt, round, i);
      TraceOfRound(password, salt, trace, round, i + 1);
    }
  }

  lemma {:induction false} TraceOfRounds(password: Bytes, salt: Bytes, trace: seq<State>, round: nat)
    requires IsTrace(password, salt, trace) && round <= 1000
    ensures MixRounds(trace[32 * round], password, salt, round) == trace[32000]
    decreases 1000 - round
  {
    hide MixRound, IsTrace;
    if round < 1000 {
      TraceOfRound(password, salt, trace, round, 0);
      TraceOfRounds(password, salt, trace, round + 1);
    }
  }

  /** The trace up to its n-th state. */
  lemma {:induction false} TraceUpTo(password: Bytes, salt: Bytes, n: nat) returns (trace: seq<State>)
    ensures |trace| == n + 1 && trace[0] == seq(32, _ => 0)
    ensures forall k :: 0 <= k < n ==> Mixes(trace[k], trace[k + 1], password, salt, k / 32, k % 32)
  {
    hide Mixes, MixAt, Contribution;
    if n == 0 {
      trace := [seq(32, _ => 0)];
    } else {
      var front := TraceUpTo(password, salt, n - 1);
      var k: nat := n - 1;
      MixesAt(front[k], password, salt, k / 32, k % 32);
      trace := front + [MixAt(front[k], k % 32, Contribution(password, salt, k / 32, k % 32))];
    }
  }

  // The mixing is a permutation of the states

  function UnmixRound(h: State, password: Bytes, salt: Bytes, round: nat, i: nat): State
    requires i <= STATE_SIZE
    decreases STATE_SIZE - i
  {
    if i == STATE_SIZE then h
    else UnmixAt(UnmixRound(h, password, salt, round, i + 1), i, Contribution(password, salt, round, i))
  }

  function UnmixRounds(h: State, password: Bytes, salt: Bytes, round: nat): State
    requires round <= ROUNDS
    decreases ROUNDS - round
  {
    if round == ROUNDS then h
    else UnmixRound(UnmixRounds(h, password, salt, round + 1), password, salt, round, 0)
  }

  lemma BytesInverse(x: Byte, k: int, f: Byte)
    ensures UnmixByte(MixByte(x, k, f), k, f) == x
    ensures MixByte(UnmixByte(x, k, f), k, f) == x
  {
    hide Plus, Minus, Xor;
    XorTwice(Plus(x, k), f);
    AddThenSubtract(x, k);
    XorTwice(x, f);
    AddThenSubtract(XorByte(x, f), k);
  }

  /** A step at i does not change what its neighbours contribute: positions
      i + 1 and i + 2 are never position i. */
  lemma NeighboursKept(h: State, i: nat, x: Byte)
    requires i < STATE_SIZE
    ensures Neighbours(h[i := x], i) == Neighbours(h, i)
  {
    hide After;
  }

  lemma StepInverse(h: State, i: nat, k: int)
    requires i < STATE_SIZE
    ensures UnmixAt(MixAt(h, i, k), i, k) == h
    ensures MixAt(UnmixAt(h, i, k), i, k) == h
  {
    hide Neighbours, MixByte, UnmixByte;
    var f := Neighbours(h, i);
    BytesInverse(h[i], k, f);
    NeighboursKept(h, i, MixByte(h[i], k, f));
    NeighboursKept(h, i, UnmixByte(h[i], k, f));
  }

  lemma {:induction false} RoundInverse(h: State, password: Bytes, salt: Bytes, round: nat, i: nat)
    requires i <= STATE_SIZE
    ensures UnmixRound(MixRound(h, password, salt, round, i), password, salt, round, i) == h
    ensures MixRound(UnmixRound(h, password, salt, round, i), password, salt, round, i) == h
    decreases STATE_SIZE - i
  {
    hide Contribution, MixAt, UnmixAt;
    if i < STATE_SIZE {
      var k := Contribution(password, salt, round, i);
      StepInverse(h, i, k);
      RoundInverse(MixAt(h, i, k), password, salt, round, i + 1);
      RoundInverse(h, password, salt, round, i + 1);
      StepInverse(UnmixRound(h, password, salt, round, i + 1), i, k);
    }
  }

  /** For a fixed password and salt the mixing is a permutation of the 32-byte
      states: it has a two-sided inverse. */
  lemma {:induction false} MixingIsPermutation(h: State, password: Bytes, salt: Bytes, round: nat)
    requires round <= ROUNDS
    ensures UnmixRounds(MixRounds(h, password, salt, round), password, salt, round) == h
    ensures MixRounds(UnmixRounds(h, password, salt, round), password, salt, round) == h
    decreases ROUNDS - round
  {
    hide MixRound, UnmixRound;
    if round < ROUNDS {
      RoundInverse(h, password, salt, round, 0);
      MixingIsPermutation(MixRound(h, password, salt, round, 0), password, salt, round + 1);
      MixingIsPermutation(h, password, salt, round + 1);
      RoundInverse(UnmixRounds(h, password, salt, round + 1), password, salt, round, 0);
    }
  }

  // Hexadecimal

  predicate IsLowerHex(b: Byte) {
    48 <= b <= 57 || 97 <= b <= 102
  }

  function HexDigit(n: nat): (r: Byte)
    requires n < 16
    ensures IsLowerHex(r)
  {
    if n < 10 then 48 + n else 87 + n
  }

  /** `%02x` of each byte in turn. */
  function Hex(h: Bytes): (r: Bytes)
    ensures |r| == 2 * |h| && forall i :: 0 <= i < |r| ==> IsLowerHex(r[i])
  {
    if h == [] then [] else
      var last: int := h[|h| - 1];
      Hex(h[..|h| - 1]) + [HexDigit(last / 16), HexDigit(last % 16)]
  }

  /** The value of a hexadecimal digit. */
  function DigitValue(b: Byte): nat
    requires IsLowerHex(b)
  {
    if b <= 57 then b - 48 else b - 87
  }

  lemma DigitIsText(n: nat)
    requires n < 16
    ensures HexDigit(n) == Ascii("0123456789abcdef")[n] && DigitValue(HexDigit(n)) == n
  {
  }

  /** The two digits at 2i denote byte i, the high one first. */
  lemma {:induction false} HexDenotes(h: Bytes, i: nat)
    requires i < |h|
    ensures 16 * DigitValue(Hex(h)[2 * i]) + DigitValue(Hex(h)[2 * i + 1]) == h[i]
  {
    hide HexDigit, DigitValue, IsLowerHex;
    var n := |h| - 1;
    if i < n {
      HexDenotes(h[..n], i);
    } else {
      var last: int := h[n];
      DigitIsText(last / 16);
      DigitIsText(last % 16);
    }
  }

  /** The hash is a function of password and salt: 64 lower-case hex digits. */
  function Hash(password: Bytes, salt: Bytes): (r: Bytes)
    ensures |r| == 64 && forall i :: 0 <= i < |r| ==> IsLowerHex(r[i])
  {
    Hex(MixRounds(seq(STATE_SIZE, _ => 0), password, salt, 0))
  }

  /** The hash is the last of the 32001 states, printed. */
  lemma HashIsLastState(password: Bytes, salt: Bytes, trace: seq<State>)
    requires IsTrace(password, salt, trace)
    ensures Hash(password, salt) == Hex(trace[32000])
  {
    hide IsTrace, MixRounds;
    TraceOfRounds(password, salt, trace, 0);
    TraceStarts(password, salt, trace);
  }

  lemma TraceStarts(password: Bytes, salt: Bytes, trace: seq<State>)
    requires IsTrace(password, salt, trace)
    ensures trace[0] == seq(STATE_SIZE, _ => 0)
  {
    hide Mixes;
  }

  /** For every password and salt there is such a run. */
  lemma HashHasTrace(password: Bytes, salt: Bytes) returns (trace: seq<State>)
    ensures IsTrace(password, salt, trace) && Hash(password, salt) == Hex(trace[32000])
  {
    hide Mixes, Hash, Hex;
    trace := TraceUpTo(password, salt, 32000);
    HashIsLastState(password, salt, trace);
  }

  /** One pass of the inner loop's body. */
  method MixStep(hash: array<Byte>, i: nat, round: nat, password: Bytes, salt: Bytes)
    requires hash.Length == STATE_SIZE && i < STATE_SIZE
    modifies hash
    ensures hash[..] == MixAt(old(hash[..]), i, Contribution(password, salt, round, i))
  {
    hide After, Plus, XorByte, OrByte, ShiftRight, ShiftLeft;
    ghost var start: State := hash[..];
    var p: int := if |password| > 0 then password[(i + round) % |password|] else 0;
    var s: int := if |salt| > 0 then salt[(i * round) % |salt|] else 0;
    var k := p + s + round;
    assert k == Contribution(password, salt, round, i);
    hash[i] := Plus(hash[i], k);
    hash[i] := XorByte(hash[i], OrByte(ShiftRight(hash[After(i, 1)]), ShiftLeft(hash[After(i, 2)])));
    assert hash[..] == start[i := hash[i]];
  }

  method MixOneRound(hash: array<Byte>, round: nat, password: Bytes, salt: Bytes)
    requires hash.Length == STATE_SIZE
    modifies hash
    ensures hash[..] == MixRound(old(hash[..]), password, salt, round, 0)
  {
    hide MixAt, Contribution;
    var i := 0;
    while i < STATE_SIZE
      invariant i <= STATE_SIZE
      invariant MixRound(hash[..], password, salt, round, i) == MixRound(old(hash[..]), password, salt, round, 0)
    {
      MixStep(hash, i, round, password, salt);
      i := i + 1;
    }
  }

  method HashPassword(password: Bytes, salt: Bytes) returns (output: Bytes)
    ensures output == Hash(password, salt)
  {
    hide MixRound;
    var hash := new Byte[STATE_SIZE](_ => 0);
    assert hash[..] == seq(STATE_SIZE, _ => 0);
    ghost var final := MixRounds(hash[..], password, salt, 0);
    var round := 0;
    while round < ROUNDS
      invariant round <= ROUNDS
      invariant MixRounds(hash[..], password, salt, round) == final
    {
      MixOneRound(hash, round, password, salt);
      round := round + 1;
    }
    output := HexString(hash);
  }

  method HexString(hash: array<Byte>) returns (output: Bytes)
    ensures output == Hex(hash[..])
  {
    output := [];
    var i := 0;
    while i < hash.Length
      invariant i <= hash.Length
      invariant output == Hex(hash[..i])
    {
      assert hash[..i + 1][..i] == hash[..i];
      var byte: int := hash[i];
      output := output + [HexDigit(byte / 16), HexDigit(byte % 16)];
      i := i + 1;
    }
    assert hash[..hash.Length] == hash[..];
  }
}
