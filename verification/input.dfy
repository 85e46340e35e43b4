/** Held-key state: each player has a 4-bit direction mask in an unsigned
    char. Bit 1 is forward, bit 2 turn-left, bit 4 backward, bit 8
    turn-right. Key-down ORs the key's bit in, key-up ANDs with a literal
    mask that has the bit cleared; each tick turns a mask into two axes. */
module Input {

  /** An 8-bit unsigned char, as the masks are stored. */
  type Mask = bv8

  datatype Direction = Forward | TurnLeft | Backward | TurnRight

  /** The bit a held direction key sets. */
  function Bit(d: Direction): (b: Mask)
    ensures b == 1 || b == 2 || b == 4 || b == 8
  {
    match d
    case Forward => 1
    case TurnLeft => 2
    case Backward => 4
    case TurnRight => 8
  }

  /** The literal a released direction key ANDs the mask with. */
  function ClearMask(d: Direction): Mask {
    match d
    case Forward => 14
    case TurnLeft => 13
    case Backward => 11
    case TurnRight => 7
  }

  /** Each direction has its own bit, and each clear literal is exactly the
      low nibble with that bit removed. */
  lemma BitsDistinct(d: Direction, e: Direction)
    ensures d != e ==> Bit(d) & Bit(e) == 0
    ensures ClearMask(d) == 15 & !Bit(d)
  {
  }

  predicate Held(m: Mask, d: Direction) {
    m & Bit(d) != 0
  }

  /** Key-down: sets the key's bit and leaves every other bit as it was. */
  function Press(m: Mask, d: Direction): (r: Mask)
    ensures Held(r, d)
    ensures r & !Bit(d) == m & !Bit(d)
    ensures forall e :: e != d ==> (Held(r, e) <==> Held(m, e))
    ensures m < 16 ==> r < 16
  {
    BitsDistinctAll(d);
    m | Bit(d)
  }

  /** Key-up: clears the key's bit. Within the low nibble every other bit is
      kept; the literal also clears bits 4 to 7, which key-down never sets. */
  function Release(m: Mask, d: Direction): (r: Mask)
    ensures !Held(r, d)
    ensures r < 16
    ensures r & 15 & !Bit(d) == m & 15 & !Bit(d)
    ensures m < 16 ==> r == m & !Bit(d)
    ensures forall e :: e != d ==> (Held(r, e) <==> Held(m, e))
  {
    BitsDistinctAll(d);
    m & ClearMask(d)
  }

  lemma BitsDistinctAll(d: Direction)
    ensures forall e :: e != d ==> Bit(d) & Bit(e) == 0
    ensures ClearMask(d) == 15 & !Bit(d)
  {
    forall e | e != d
      ensures Bit(d) & Bit(e) == 0
    {
      BitsDistinct(d, e);
    }
    BitsDistinct(d, d);
  }

  /** Pressing twice is pressing once, releasing twice is releasing once,
      and the last of a press and a release on a nibble decides the bit. */
  lemma PressReleaseLaws(m: Mask, d: Direction)
    requires m < 16
    ensures Press(Press(m, d), d) == Press(m, d)
    ensures Release(Release(m, d), d) == Release(m, d)
    ensures Release(Press(m, d), d) == Release(m, d)
    ensures Press(Release(m, d), d) == Press(m, d)
    ensures !Held(m, d) ==> Release(Press(m, d), d) == m
    ensures Held(m, d) ==> Press(Release(m, d), d) == m
  {
  }

  /** The value 1, 0 or -1 of an axis as the tick reads it from two opposing bits. */
  function AxisValue(plus: bool, minus: bool): real {
    (if plus then 1.0 else 0.0) - (if minus then 1.0 else 0.0)
  }

  /** The turning axis: +1 for turn-right alone, -1 for turn-left alone. */
  function Horizontal(m: Mask): (r: real)
    ensures r == -1.0 || r == 0.0 || r == 1.0
    ensures r == 1.0 <==> Held(m, TurnRight) && !Held(m, TurnLeft)
    ensures r == -1.0 <==> Held(m, TurnLeft) && !Held(m, TurnRight)
    ensures r == 0.0 <==> (Held(m, TurnLeft) <==> Held(m, TurnRight))
  {
    AxisValue(m & 8 != 0, m & 2 != 0)
  }

  /** The thrust axis: +1 for forward alone, -1 for backward alone. */
  function Vertical(m: Mask): (r: real)
    ensures r == -1.0 || r == 0.0 || r == 1.0
    ensures r == 1.0 <==> Held(m, Forward) && !Held(m, Backward)
    ensures r == -1.0 <==> Held(m, Backward) && !Held(m, Forward)
    ensures r == 0.0 <==> (Held(m, Forward) <==> Held(m, Backward))
  {
    AxisValue(m & 1 != 0, m & 4 != 0)
  }

  /** With no key held both axes are 0, and only turn keys move the turning
      axis: pressing forward or backward leaves it alone. */
  lemma AxesFromKeys(m: Mask)
    ensures Horizontal(0) == 0.0 && Vertical(0) == 0.0
    ensures Horizontal(Press(m, Forward)) == Horizontal(m)
    ensures Horizontal(Press(m, Backward)) == Horizontal(m)
    ensures Vertical(Press(m, TurnLeft)) == Vertical(m)
    ensures Vertical(Press(m, TurnRight)) == Vertical(m)
    ensures Vertical(Press(Press(m, Forward), Backward)) == 0.0
    ensures Horizontal(Press(Press(m, TurnLeft), TurnRight)) == 0.0
  {
  }
}
