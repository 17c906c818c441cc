/** The packed 32-bit terminal cell the GUI renderer writes and the
    differential renderer reads: codepoint in bits 0-15, foreground colour
    index in bits 16-23, background colour index in bits 24-31. */
module Cells {

  /** One `ImTui::TCell`, an unsigned 32-bit word. */
  type Cell = c: int | 0 <= c < 0x1_0000_0000 witness 0

  /** `cell & 0x0000FFFF` */
  function Codepoint(c: Cell): (r: int)
    ensures 0 <= r < 0x1_0000
  {
    c % 0x1_0000
  }

  /** `(cell & 0x00FF0000) >> 16` */
  function Fg(c: Cell): (r: int)
    ensures 0 <= r < 0x100
  {
    (c / 0x1_0000) % 0x100
  }

  /** `(cell & 0xFF000000) >> 24` */
  function Bg(c: Cell): (r: int)
    ensures 0 <= r < 0x100
  {
    c / 0x100_0000
  }

  /** Builds a cell from its three lanes; reading the lanes back gives them
      unchanged, so the lanes never overlap. */
  function Pack(cp: int, fg: int, bg: int): (c: Cell)
    requires 0 <= cp < 0x1_0000 && 0 <= fg < 0x100 && 0 <= bg < 0x100
    ensures Codepoint(c) == cp && Fg(c) == fg && Bg(c) == bg
  {
    cp + fg * 0x1_0000 + bg * 0x100_0000
  }

  /** The three lanes cover the whole word: a cell is determined by them. */
  lemma PackLanes(c: Cell)
    ensures Pack(Codepoint(c), Fg(c), Bg(c)) == c
  {
    var q := c / 0x1_0000;
    assert c == q * 0x1_0000 + Codepoint(c);
    assert q == (q / 0x100) * 0x100 + Fg(c);
    assert q / 0x100 == Bg(c);
    calc {
      Pack(Codepoint(c), Fg(c), Bg(c));
      Codepoint(c) + Fg(c) * 0x1_0000 + Bg(c) * 0x100_0000;
      Codepoint(c) + (Fg(c) + Bg(c) * 0x100) * 0x1_0000;
      Codepoint(c) + q * 0x1_0000;
    }
  }

  /** The colour-pair index `p = b*256 + f`: always a valid index of the
      65536-entry registry, and it determines the (fg, bg) pair. */
  function PairIndex(c: Cell): (p: int)
    ensures 0 <= p < 0x1_0000
    ensures p / 0x100 == Bg(c) && p % 0x100 == Fg(c)
  {
    Bg(c) * 0x100 + Fg(c)
  }

  /** Two cells share a colour pair exactly when their colour lanes agree. */
  lemma PairIndexInjective(c: Cell, d: Cell)
    ensures PairIndex(c) == PairIndex(d) <==> (Fg(c) == Fg(d) && Bg(c) == Bg(d))
  {
    var p, q := PairIndex(c), PairIndex(d);
    if p == q {
      assert Bg(c) == p / 0x100 == q / 0x100 == Bg(d);
    }
  }

  /** One `uint8_t` of the row buffer. */
  newtype Byte = b: int | 0 <= b < 0x100

  /** The byte stored into the `uint8_t` row buffer for a cell: codepoint 0
      is drawn as a space, any other codepoint keeps only its low byte, so a
      non-zero codepoint whose low byte is zero stores a NUL byte. */
  function Glyph(c: Cell): (b: Byte)
    ensures Codepoint(c) == 0 ==> b == 32
    ensures 0 < Codepoint(c) < 0x100 ==> b as int == Codepoint(c)
    ensures b == 0 <==> (Codepoint(c) != 0 && Codepoint(c) % 0x100 == 0)
    ensures Codepoint(c) != 0 ==> (Codepoint(c) - b as int) % 0x100 == 0
  {
    var cp := Codepoint(c);
    if cp > 0 then (cp % 0x100) as Byte else 32
  }
}
