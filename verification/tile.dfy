/** One cell of the maze: a 32-bit field of flags.
    Bits 0..3 are the four directions (a set bit is a wall on that side once the
    walk has run), bit 30 marks a visited cell and bit 31 a border cell. */
module Tiles {

  const DIRECTION_COUNT: bv32 := 4
  const HALF_DIRECTION_COUNT: bv32 := 2
  const DIRECTION_BITS: bv32 := (1 << DIRECTION_COUNT) - 1
  const LEFT_BIT: bv32 := 0
  const UP_BIT: bv32 := 1
  const RIGHT_BIT: bv32 := 2
  const DOWN_BIT: bv32 := 3
  const VISITED_BIT: bv32 := 30
  const BLOCK_BIT: bv32 := 31
  const LEFT: bv32 := 1 << LEFT_BIT
  const UP: bv32 := 1 << UP_BIT
  const RIGHT: bv32 := 1 << RIGHT_BIT
  const DOWN: bv32 := 1 << DOWN_BIT
  const VISITED: bv32 := 1 << VISITED_BIT
  const BLOCK: bv32 := 1 << BLOCK_BIT

  /** Bit k of v is set. */
  predicate HasBit(v: bv32, k: bv5)
  {
    (v >> k) & 1 == 1
  }

  /** v has exactly one bit set, and it is bit k. */
  ghost predicate IsBit(v: bv32, k: bv5)
  {
    HasBit(v, k) && forall j: bv5 :: j != k ==> !HasBit(v, j)
  }

  /** The six flags are single bits at positions 0, 1, 2, 3, 30 and 31,
      hence pairwise disjoint. */
  lemma FlagLayout()
    ensures IsBit(LEFT, 0) && IsBit(UP, 1) && IsBit(RIGHT, 2) && IsBit(DOWN, 3)
    ensures IsBit(VISITED, 30) && IsBit(BLOCK, 31)
    ensures DIRECTION_BITS == LEFT | UP | RIGHT | DOWN
  {
  }

  predicate IsDirection(d: bv32) {
    d == LEFT || d == UP || d == RIGHT || d == DOWN
  }

  /** The direction pointing back the way d came. */
  function Opposite(d: bv32): (r: bv32)
    requires IsDirection(d)
    ensures IsDirection(r) && r != d
  {
    if d == LEFT then RIGHT
    else if d == RIGHT then LEFT
    else if d == UP then DOWN
    else UP
  }

  // ---------------------------------------------------------------------------
  // Varargs flag operations

  /** The OR of a list of flags, folded from the left as the loops do. */
  function OrAll(properties: seq<bv32>): bv32
  {
    if properties == [] then 0
    else OrAll(properties[..|properties| - 1]) | properties[|properties| - 1]
  }

  /** Unfolds one step of the fold. */
  lemma OrAllLast(ps: seq<bv32>)
    requires ps != []
    ensures OrAll(ps) == OrAll(ps[..|ps| - 1]) | ps[|ps| - 1]
  {
  }

  lemma HasBitOr(a: bv32, b: bv32, k: bv5)
    ensures HasBit(a | b, k) <==> HasBit(a, k) || HasBit(b, k)
  {
  }

  lemma HasBitAndNot(a: bv32, b: bv32, k: bv5)
    ensures HasBit(a & !b, k) <==> HasBit(a, k) && !HasBit(b, k)
  {
  }

  /** A bit set in one flag is set in the OR of all flags. */
  lemma {:induction false} OrAllHasBit(ps: seq<bv32>, i: nat, k: bv5)
    requires i < |ps| && HasBit(ps[i], k)
    ensures HasBit(OrAll(ps), k)
  {
    var n := |ps| - 1;
    OrAllLast(ps);
    HasBitOr(OrAll(ps[..n]), ps[n], k);
    if i < n {
      assert ps[..n][i] == ps[i];
      OrAllHasBit(ps[..n], i, k);
    }
  }

  /** A bit set in the OR of all flags is set in one of them. */
  lemma {:induction false} FlagWithBit(ps: seq<bv32>, k: bv5) returns (i: nat)
    requires HasBit(OrAll(ps), k)
    ensures i < |ps| && HasBit(ps[i], k)
  {
    if ps != [] {
      var n := |ps| - 1;
      OrAllLast(ps);
      HasBitOr(OrAll(ps[..n]), ps[n], k);
      if HasBit(ps[n], k) {
        i := n;
      } else {
        i := FlagWithBit(ps[..n], k);
        assert ps[..n][i] == ps[i];
      }
    }
  }

  /** Some flag of ps has bit k. */
  predicate SomeFlagHas(ps: seq<bv32>, k: bv5)
  {
    exists i :: 0 <= i < |ps| && HasBit(ps[i], k)
  }

  /** A bit of OrAll(ps) is set exactly when it is set in one of the ps. */
  lemma OrAllBits(ps: seq<bv32>, k: bv5)
    ensures HasBit(OrAll(ps), k) <==> SomeFlagHas(ps, k)
  {
    if HasBit(OrAll(ps), k) {
      var i := FlagWithBit(ps, k);
    }
    forall i | 0 <= i < |ps| && HasBit(ps[i], k)
      ensures HasBit(OrAll(ps), k)
    {
      OrAllHasBit(ps, i, k);
    }
  }

  /** Applying flags sets exactly the bits that were set before or that some flag has. */
  lemma AppliedBits(v: bv32, ps: seq<bv32>, k: bv5)
    ensures HasBit(v | OrAll(ps), k) <==> HasBit(v, k) || SomeFlagHas(ps, k)
  {
    OrAllBits(ps, k);
    OredBit(v, OrAll(ps), k, SomeFlagHas(ps, k));
  }

  lemma OredBit(v: bv32, o: bv32, k: bv5, s: bool)
    requires HasBit(o, k) <==> s
    ensures HasBit(v | o, k) <==> HasBit(v, k) || s
  {
    HasBitOr(v, o, k);
  }

  /** Removing flags clears exactly the bits some flag has and keeps every other bit. */
  lemma RemovedBits(v: bv32, ps: seq<bv32>, k: bv5)
    ensures HasBit(v & !OrAll(ps), k) <==> HasBit(v, k) && !SomeFlagHas(ps, k)
  {
    OrAllBits(ps, k);
    ClearedBit(v, OrAll(ps), k, SomeFlagHas(ps, k));
  }

  lemma ClearedBit(v: bv32, o: bv32, k: bv5, s: bool)
    requires (HasBit(o, k) <==> s)
    ensures HasBit(v & !o, k) <==> HasBit(v, k) && !s
  {
    HasBitAndNot(v, o, k);
  }

  /** v shares a bit with f. */
  predicate Meets(v: bv32, f: bv32) {
    v & f != 0
  }

  lemma MeetsOr(v: bv32, a: bv32, b: bv32)
    ensures Meets(v, a | b) <==> Meets(v, a) || Meets(v, b)
  {
    assert v & (a | b) == (v & a) | (v & b);
  }

  /** A flag that meets v makes the OR of all flags meet v. */
  lemma {:induction false} MeetsOrAll(v: bv32, ps: seq<bv32>, i: nat)
    requires i < |ps| && Meets(v, ps[i])
    ensures Meets(v, OrAll(ps))
  {
    var n := |ps| - 1;
    OrAllLast(ps);
    MeetsOr(v, OrAll(ps[..n]), ps[n]);
    if i < n {
      assert ps[..n][i] == ps[i];
      MeetsOrAll(v, ps[..n], i);
    }
  }

  /** When the OR of all flags meets v, one of the flags does. */
  lemma {:induction false} MeetingFlag(v: bv32, ps: seq<bv32>) returns (i: nat)
    requires Meets(v, OrAll(ps))
    ensures i < |ps| && Meets(v, ps[i])
  {
    if ps != [] {
      var n := |ps| - 1;
      OrAllLast(ps);
      MeetsOr(v, OrAll(ps[..n]), ps[n]);
      if Meets(v, ps[n]) {
        i := n;
      } else {
        i := MeetingFlag(v, ps[..n]);
        assert ps[..n][i] == ps[i];
      }
    }
  }

  /** Intersecting with the OR of the flags is the same as intersecting with one
      of them; in particular it is false for no flags. */
  lemma AnyBits(v: bv32, ps: seq<bv32>)
    ensures Meets(v, OrAll(ps)) <==> exists i :: 0 <= i < |ps| && Meets(v, ps[i])
    ensures ps == [] ==> !Meets(v, OrAll(ps))
  {
    if Meets(v, OrAll(ps)) {
      var i := MeetingFlag(v, ps);
    }
    forall i | 0 <= i < |ps| && Meets(v, ps[i])
      ensures Meets(v, OrAll(ps))
    {
      MeetsOrAll(v, ps, i);
    }
  }

  /** Applying flags only adds bits, and applying the same flags again changes nothing. */
  lemma ApplyMonotone(v: bv32, ps: seq<bv32>)
    ensures v & (v | OrAll(ps)) == v
    ensures (v | OrAll(ps)) | OrAll(ps) == v | OrAll(ps)
  {
  }

  /** Removing flags only clears bits, leaves none of them set, and removing
      them again changes nothing. */
  lemma RemoveMonotone(v: bv32, ps: seq<bv32>)
    ensures (v & !OrAll(ps)) & v == v & !OrAll(ps)
    ensures (v & !OrAll(ps)) & OrAll(ps) == 0
    ensures (v & !OrAll(ps)) & !OrAll(ps) == v & !OrAll(ps)
  {
  }

  // The loops of Tile walk the flags from the left; after i flags the running
  // value is the fold over properties[..i].

  lemma OrAllNone(ps: seq<bv32>)
    ensures OrAll(ps[..0]) == 0
  {
    assert ps[..0] == [];
  }

  lemma OrAllStep(ps: seq<bv32>, i: nat)
    requires i < |ps|
    ensures OrAll(ps[..i + 1]) == OrAll(ps[..i]) | ps[i]
  {
    assert ps[..i + 1][..i] == ps[..i];
    OrAllLast(ps[..i + 1]);
  }

  lemma OrAllWhole(ps: seq<bv32>)
    ensures OrAll(ps[..|ps|]) == OrAll(ps)
  {
    assert ps[..|ps|] == ps;
  }

  lemma OrAllSingle(p: bv32)
    ensures OrAll([p]) == p
  {
    OrAllLast([p]);
    assert [p][..0] == [];
  }

  lemma OrAssoc(v: bv32, a: bv32, b: bv32)
    ensures (v | a) | b == v | (a | b)
  {
  }

  lemma MaskStep(v: bv32, a: bv32, b: bv32)
    ensures (v & a) | (v & b) == v & (a | b)
  {
  }

  lemma ClearStep(v: bv32, a: bv32, b: bv32)
    ensures (v & !a) & !b == v & !(a | b)
  {
  }

  lemma NoFlags(v: bv32)
    ensures v | 0 == v && 0 | v == v && v & !0 == v && v & 0 == 0
  {
  }

  /** v is v0 with the first i flags applied. */
  ghost predicate AppliedUpTo(v0: bv32, ps: seq<bv32>, i: nat, v: bv32)
    requires i <= |ps|
  {
    v == v0 | OrAll(ps[..i])
  }

  lemma AppliedStart(v0: bv32, ps: seq<bv32>)
    ensures AppliedUpTo(v0, ps, 0, v0)
  {
    OrAllNone(ps);
    NoFlags(v0);
  }

  lemma AppliedNext(v0: bv32, ps: seq<bv32>, i: nat, v: bv32)
    requires i < |ps| && AppliedUpTo(v0, ps, i, v)
    ensures AppliedUpTo(v0, ps, i + 1, v | ps[i])
  {
    OrAllStep(ps, i);
    OrAssoc(v0, OrAll(ps[..i]), ps[i]);
  }

  lemma AppliedEnd(v0: bv32, ps: seq<bv32>, v: bv32)
    requires AppliedUpTo(v0, ps, |ps|, v)
    ensures v == v0 | OrAll(ps)
  {
    OrAllWhole(ps);
  }

  /** v is v0 with the first i flags cleared. */
  ghost predicate ClearedUpTo(v0: bv32, ps: seq<bv32>, i: nat, v: bv32)
    requires i <= |ps|
  {
    v == v0 & !OrAll(ps[..i])
  }

  lemma ClearedStart(v0: bv32, ps: seq<bv32>)
    ensures ClearedUpTo(v0, ps, 0, v0)
  {
    OrAllNone(ps);
    NoFlags(v0);
  }

  lemma ClearedNext(v0: bv32, ps: seq<bv32>, i: nat, v: bv32)
    requires i < |ps| && ClearedUpTo(v0, ps, i, v)
    ensures ClearedUpTo(v0, ps, i + 1, v & !ps[i])
  {
    OrAllStep(ps, i);
    ClearStep(v0, OrAll(ps[..i]), ps[i]);
  }

  lemma ClearedEnd(v0: bv32, ps: seq<bv32>, v: bv32)
    requires ClearedUpTo(v0, ps, |ps|, v)
    ensures v == v0 & !OrAll(ps)
  {
    OrAllWhole(ps);
  }

  /** r collects the bits v shares with the first i flags. */
  ghost predicate SharedUpTo(v: bv32, ps: seq<bv32>, i: nat, r: bv32)
    requires i <= |ps|
  {
    r == v & OrAll(ps[..i])
  }

  lemma SharedStart(v: bv32, ps: seq<bv32>)
    ensures SharedUpTo(v, ps, 0, 0)
  {
    OrAllNone(ps);
    NoFlags(v);
  }

  lemma SharedNext(v: bv32, ps: seq<bv32>, i: nat, r: bv32)
    requires i < |ps| && SharedUpTo(v, ps, i, r)
    ensures SharedUpTo(v, ps, i + 1, r | (v & ps[i]))
  {
    OrAllStep(ps, i);
    MaskStep(v, OrAll(ps[..i]), ps[i]);
  }

  lemma SharedEnd(v: bv32, ps: seq<bv32>, r: bv32)
    requires SharedUpTo(v, ps, |ps|, r)
    ensures r == v & OrAll(ps)
    ensures r != 0 <==> Meets(v, OrAll(ps))
  {
    OrAllWhole(ps);
    SharedMeets(v, OrAll(ps), r);
  }

  lemma SharedMeets(v: bv32, o: bv32, r: bv32)
    requires r == v & o
    ensures r != 0 <==> Meets(v, o)
  {
  }

  class Tile {
    var value: bv32

    /** A tile holding the OR of the given flags, 0 when none are given. */
    constructor (properties: seq<bv32>)
      ensures value == OrAll(properties)
    {
      value := 0;
      new;
      AppliedStart(0, properties);
      for i := 0 to |properties|
        invariant AppliedUpTo(0, properties, i, value)
      {
        AppliedNext(0, properties, i, value);
        OrAllSingle(properties[i]);
        Apply([properties[i]]);
      }
      AppliedEnd(0, properties, value);
      NoFlags(OrAll(properties));
    }

    /** ORs every flag into the value (see AppliedBits and ApplyMonotone). */
    method Apply(properties: seq<bv32>)
      modifies this
      ensures value == old(value) | OrAll(properties)
    {
      var v := value;
      AppliedStart(v, properties);
      for i := 0 to |properties|
        invariant AppliedUpTo(old(value), properties, i, v)
      {
        AppliedNext(old(value), properties, i, v);
        v := v | properties[i];
      }
      AppliedEnd(old(value), properties, v);
      value := v;
    }

    /** Clears every given flag (see RemovedBits and RemoveMonotone). */
    method Remove(properties: seq<bv32>)
      modifies this
      ensures value == old(value) & !OrAll(properties)
    {
      var v := value;
      ClearedStart(v, properties);
      for i := 0 to |properties|
        invariant ClearedUpTo(old(value), properties, i, v)
      {
        ClearedNext(old(value), properties, i, v);
        v := v & !properties[i];
      }
      ClearedEnd(old(value), properties, v);
      value := v;
    }

    /** True when the value shares a bit with the OR of the flags, that is
        (AnyBits) with one of the flags; false for no flags. */
    method CheckAny(properties: seq<bv32>) returns (r: bool)
      ensures r <==> Meets(value, OrAll(properties))
    {
      var v := value;
      var result: bv32 := 0;
      SharedStart(v, properties);
      for i := 0 to |properties|
        invariant SharedUpTo(v, properties, i, result)
      {
        SharedNext(v, properties, i, result);
        result := result | (v & properties[i]);
      }
      SharedEnd(v, properties, result);
      r := result != 0;
    }

    /** The value as 32 binary digits, most significant first. */
    function ToString(): (s: string)
      reads this
      ensures |s| == 32 && IsBinary(s)
      ensures BinaryValue(s) == value as int
    {
      var digits := ToBinaryString(value as nat);
      Pow2Of32();
      BinaryLength(value as nat, 32);
      PaddedValue(digits, 32);
      LeftZeroPad(digits, 32)
    }
  }

  // ---------------------------------------------------------------------------
  // Direction arithmetic

  /** The direction one step further along the cycle LEFT, UP, RIGHT, DOWN. */
  function TurnLeftOf(d: bv32): bv32 {
    ((d & DIRECTION_BITS) as bv4).RotateLeft(1) as bv32
  }

  /** The direction one step back along the cycle LEFT, UP, RIGHT, DOWN. */
  function TurnRightOf(d: bv32): bv32 {
    ((d & DIRECTION_BITS) as bv4).RotateRight(1) as bv32
  }

  /** The candidates for the next move after a move in direction d: the two
      perpendicular directions, then d itself. The opposite of d is never among them. */
  function Directions(d: bv32): (r: seq<bv32>)
    ensures |r| == 3 && r[2] == d
    ensures IsDirection(d) ==>
      IsDirection(r[0]) && IsDirection(r[1]) &&
      r[0] != r[1] && r[0] != d && r[1] != d &&
      Opposite(d) !in r
    ensures d == 0 ==> r == [0, 0, 0]
  {
    [TurnRightOf(d), TurnLeftOf(d), d]
  }

  /** The concrete table of candidates. */
  lemma DirectionsTable()
    ensures Directions(LEFT) == [DOWN, UP, LEFT]
    ensures Directions(UP) == [LEFT, RIGHT, UP]
    ensures Directions(RIGHT) == [UP, DOWN, RIGHT]
    ensures Directions(DOWN) == [RIGHT, LEFT, DOWN]
  {
  }

  /** The candidates of a direction are exactly the three directions other
      than its opposite, and a direction has no bit outside DIRECTION_BITS. */
  lemma DirectionsCover(d: bv32)
    requires IsDirection(d)
    ensures d & !DIRECTION_BITS == 0
    ensures forall x {:trigger x in Directions(d)} :: x in Directions(d) <==> IsDirection(x) && x != Opposite(d)
  {
    DirectionsTable();
  }

  /** The candidate list, filled by a shift-and-mask loop. */
  method GetDirections(direction: bv32) returns (directions: array<bv32>)
    ensures fresh(directions) && directions.Length == 3
    ensures directions[2] == direction
    ensures directions[0] & !DIRECTION_BITS == 0 && directions[1] & !DIRECTION_BITS == 0
    ensures direction & !DIRECTION_BITS == 0 ==> directions[..] == Directions(direction)
  {
    directions := new bv32[(DIRECTION_COUNT - 1) as int];
    var i: bv32 := 1;
    while i < HALF_DIRECTION_COUNT
      invariant 1 <= i <= HALF_DIRECTION_COUNT
      invariant i == HALF_DIRECTION_COUNT ==>
        directions[0] == ((direction >> 1) | (direction << (DIRECTION_COUNT - 1))) & DIRECTION_BITS &&
        directions[1] == ((direction >> (DIRECTION_COUNT - 1)) | (direction << 1)) & DIRECTION_BITS
    {
      directions[(i - 1) as int] := ((direction >> i) | (direction << (DIRECTION_COUNT - i))) & DIRECTION_BITS;
      directions[(HALF_DIRECTION_COUNT - i) as int] := ((direction >> (DIRECTION_COUNT - i)) | (direction << i)) & DIRECTION_BITS;
      i := i + 1;
    }
    directions[(DIRECTION_COUNT - 2) as int] := direction;
  }

  /** Bits 0..3 of a direction mask as 0/1 indicators, in the order left, up, right, down. */
  function DirectionComponents(direction: bv32): (r: seq<int>)
    ensures |r| == 4
    ensures forall k :: 0 <= k < 4 ==> (r[k] == 0 || r[k] == 1)
    ensures (r[0] == 1 <==> direction & LEFT != 0) && (r[1] == 1 <==> direction & UP != 0)
    ensures (r[2] == 1 <==> direction & RIGHT != 0) && (r[3] == 1 <==> direction & DOWN != 0)
    ensures IsDirection(direction) ==> r[0] + r[1] + r[2] + r[3] == 1
  {
    [ ((direction >> LEFT_BIT) & 1) as int,
      ((direction >> UP_BIT) & 1) as int,
      ((direction >> RIGHT_BIT) & 1) as int,
      ((direction >> DOWN_BIT) & 1) as int ]
  }

  // ---------------------------------------------------------------------------
  // Binary rendering

  predicate IsBinary(s: string) {
    forall i :: 0 <= i < |s| ==> s[i] == '0' || s[i] == '1'
  }

  /** The number a string of binary digits denotes, most significant digit first. */
  function BinaryValue(s: string): nat {
    if s == [] then 0
    else 2 * BinaryValue(s[..|s| - 1]) + (if s[|s| - 1] == '1' then 1 else 0)
  }

  function Pow2(k: nat): nat {
    if k == 0 then 1 else 2 * Pow2(k - 1)
  }

  lemma Pow2Of32()
    ensures Pow2(32) == 0x1_0000_0000
  {
    assert Pow2(8) == 0x100;
    assert Pow2(16) == 0x1_0000;
    assert Pow2(24) == 0x100_0000;
  }

  /** The shortest binary digits of n, as the runtime library's unsigned rendering gives them. */
  function ToBinaryString(n: nat): (s: string)
    ensures |s| >= 1 && IsBinary(s) && BinaryValue(s) == n
    ensures s[0] == '0' <==> n == 0
    ensures n == 0 ==> s == "0"
  {
    if n < 2 then [if n == 1 then '1' else '0']
    else
      var prefix := ToBinaryString(n / 2);
      var s := prefix + [if n % 2 == 1 then '1' else '0'];
      assert s[..|s| - 1] == prefix;
      s
  }

  /** A number below 2^k takes at most k digits. */
  lemma {:induction false} BinaryLength(n: nat, k: nat)
    requires k >= 1 && n < Pow2(k)
    ensures |ToBinaryString(n)| <= k
  {
    if n >= 2 {
      BinaryLength(n / 2, k - 1);
    }
  }

  /** Prepends zeros until s is len characters long; longer strings are returned unchanged. */
  function LeftZeroPad(s: string, len: int): (r: string)
    ensures |s| >= len ==> r == s
    ensures |r| == (if len > |s| then len else |s|)
    ensures r[|r| - |s|..] == s
    ensures forall i :: 0 <= i < |r| - |s| ==> r[i] == '0'
  {
    var zerosNeeded := len - |s|;
    if zerosNeeded > 0 then seq(zerosNeeded, _ => '0') + s
    else s
  }

  /** Leading zeros do not change the value of a binary string. */
  lemma {:induction false} LeadingZeros(z: string, s: string)
    requires forall i :: 0 <= i < |z| ==> z[i] == '0'
    ensures BinaryValue(z + s) == BinaryValue(s)
  {
    if s == [] {
      assert z + s == z;
      if z != [] {
        LeadingZeros(z[..|z| - 1], []);
        assert z[..|z| - 1] + [] == z[..|z| - 1];
      }
    } else {
      var n := |s| - 1;
      assert (z + s)[..|z + s| - 1] == z + s[..n];
      LeadingZeros(z, s[..n]);
    }
  }

  /** Padding keeps the value and the binary alphabet. */
  lemma PaddedValue(s: string, len: int)
    requires IsBinary(s)
    ensures IsBinary(LeftZeroPad(s, len))
    ensures BinaryValue(LeftZeroPad(s, len)) == BinaryValue(s)
  {
    var r := LeftZeroPad(s, len);
    if len > |s| {
      var z := r[..len - |s|];
      assert r == z + s;
      LeadingZeros(z, s);
    }
  }
}
