/**
 * The `change_color` command: it rebuilds the CGA text attribute word
 * `cga_mode_gv` from the first characters of its three arguments
 * (foreground, background, cursor mode).
 */
module Color {
  import opened Tokenizer

  /** Foreground bits for the first character of argv[1]. */
  function ForeBits(c: char): bv16
  {
    match c
    case 'r' => 0x400
    case 'g' => 0x200
    case 'b' => 0x100
    case 'w' => 0x700
    case 'y' => 0x600
    case _ => 0x000
  }

  /** Background bits for the first character of argv[2]. */
  function BackBits(c: char): bv16
  {
    match c
    case 'r' => 0x4000
    case 'g' => 0x2000
    case 'b' => 0x1000
    case 'y' => 0x6000
    case 'w' => 0x7000
    case _ => 0x0000
  }

  /** Cursor-mode bit for the first character of argv[3]. */
  function CursorBits(c: char): bv16
  {
    if c == '1' then 0x8000 else 0x0000
  }

  /** The attribute word `change_color` leaves behind. The three fields occupy
      disjoint bits, so each can be read back, and the low byte stays clear. */
  function Attribute(fore: char, back: char, cursor: char): (m: bv16)
    ensures m & 0x00FF == 0 && m | 0xF700 == 0xF700
    ensures m & 0x0700 == ForeBits(fore)
    ensures m & 0x7000 == BackBits(back)
    ensures m & 0x8000 == CursorBits(cursor)
  {
    ForeBits(fore) | BackBits(back) | CursorBits(cursor)
  }

  /** White is red, green and blue together; yellow is red and green. */
  lemma MixedColours()
    ensures ForeBits('w') == ForeBits('r') | ForeBits('g') | ForeBits('b')
    ensures ForeBits('y') == ForeBits('r') | ForeBits('g')
    ensures BackBits('w') == BackBits('r') | BackBits('g') | BackBits('b')
    ensures BackBits('y') == BackBits('r') | BackBits('g')
  {
  }

  /** Owner of the global attribute word `cga_mode_gv` (a 16-bit short). */
  class Console {
    var cgaMode: bv16

    constructor (mode: bv16)
      ensures cgaMode == mode
    {
      cgaMode := mode;
    }

    /**
     * `changecolor`: resets the attribute word, then ORs in one pattern per
     * argument, chosen by the argument's first character. It dereferences
     * argv[1], argv[2] and argv[3] unchecked, so it needs four arguments.
     */
    method ChangeColor(argc: int, argv: array<Ptr>, buf: array<char>) returns (r: int)
      requires 4 <= argc < argv.Length
      requires forall i :: 1 <= i <= 3 ==> argv[i].At? && argv[i].offset < buf.Length
      modifies this
      ensures r == 0
      ensures cgaMode == Attribute(buf[argv[1].offset], buf[argv[2].offset], buf[argv[3].offset])
    {
      cgaMode := 0;
      match buf[argv[1].offset] {
      case 'r' => cgaMode := cgaMode | 0x400;
      case 'g' => cgaMode := cgaMode | 0x200;
      case 'b' => cgaMode := cgaMode | 0x100;
      case 'w' => cgaMode := cgaMode | 0x700;
      case 'y' => cgaMode := cgaMode | 0x600;
      case _ => cgaMode := cgaMode | 0x000;
      }
      match buf[argv[2].offset] {
      case 'r' => cgaMode := cgaMode | 0x4000;
      case 'g' => cgaMode := cgaMode | 0x2000;
      case 'b' => cgaMode := cgaMode | 0x1000;
      case 'y' => cgaMode := cgaMode | 0x6000;
      case 'w' => cgaMode := cgaMode | 0x7000;
      case _ => cgaMode := cgaMode | 0x0000;
      }
      match buf[argv[3].offset] {
      case '0' => cgaMode := cgaMode | 0x0000;
      case '1' => cgaMode := cgaMode | 0x8000;
      case _ => cgaMode := cgaMode | 0x0000;
      }
      r := 0;
    }
  }
}
