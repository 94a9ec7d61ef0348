/**
  The state the driver keeps for one 4-digit module, and the operations of its
  public interface acting on it. Bus traffic is not modelled: an operation that
  writes data is modelled by its effect on what the module shows.
 */
module Display {
  import opened Wrappers
  import opened Segments
  import opened Formatter

  /** Digits on the module, addressed 0 (leftmost) to 3 (rightmost). */
  const DigitCount: nat := 4

  /** The brightest level; 0 is the dimmest. */
  const MaxLevel: nat := 7

  datatype Brightness = Brightness(level: nat, on: bool)

  /**
    `cells`: the pattern each digit shows, leftmost first.
    `setting`: the brightness last passed to setBrightness.
    `active`: the brightness the module runs at; a new setting only reaches
    the module with the next command that writes display data.
   */
  datatype Module = Module(cells: seq<Byte>, setting: Brightness, active: Brightness)

  predicate Valid(m: Module) {
    && |m.cells| == DigitCount
    && m.setting.level <= MaxLevel
    && m.active.level <= MaxLevel
  }

  /** setBrightness: remembers the level and the on/off flag; what the module
      shows, and how brightly, stays as it was. */
  function SetBrightness(m: Module, level: nat, on: bool): (r: Module)
    requires Valid(m)
    requires level <= MaxLevel
    ensures Valid(r)
    ensures r.setting.level == level && r.setting.on == on
    ensures r.cells == m.cells && r.active == m.active
  {
    m.(setting := Brightness(level, on))
  }

  /**
    setSegments: digit `pos + i` takes `segments[i]`, every other digit keeps
    its pattern, and the brightness setting takes effect.
   */
  function SetSegments(m: Module, segments: seq<Byte>, pos: nat): (r: Module)
    requires Valid(m)
    requires pos + |segments| <= DigitCount
    ensures Valid(r)
    ensures forall i :: 0 <= i < |segments| ==> r.cells[pos + i] == segments[i]
    ensures forall j :: 0 <= j < DigitCount && !(pos <= j < pos + |segments|) ==> r.cells[j] == m.cells[j]
    ensures r.setting == m.setting && r.active == m.setting
  {
    Module(m.cells[..pos] + segments + m.cells[pos + |segments|..], m.setting, m.setting)
  }

  /** clear: every digit blank, dots included. */
  function Clear(m: Module): (r: Module)
    requires Valid(m)
    ensures Valid(r)
    ensures forall j :: 0 <= j < DigitCount ==> r.cells[j] == Blank
    ensures r.setting == m.setting && r.active == m.setting
  {
    SetSegments(m, Repeat(Blank, DigitCount), 0)
  }

  /** The `length` digits starting at `pos`. */
  function Window(m: Module, pos: nat, length: nat): seq<Byte>
    requires pos + length <= |m.cells|
  {
    m.cells[pos..pos + length]
  }

  /**
    showNumberBaseEx: writes `n` in `base` to the `length` digits starting at
    `pos`, with a minus mark when `negative` is set, and the dots of the mask.
    The driver passes the sign as the sign of its base argument. Bit 7 of
    the dots mask belongs to the first digit written, at `pos`.
   */
  function ShowNumberBaseEx(m: Module, base: nat, negative: bool, n: nat, dots: Byte,
                            leadingZero: bool, length: nat, pos: nat): (r: Module)
    requires Valid(m)
    requires ValidBase(base)
    requires n < 0x1_0000
    requires pos + length <= DigitCount
    requires Fits(base, n, negative, length)
    ensures Valid(r)
    ensures FitsIn(base, n, negative, length)
    ensures Window(r, pos, length) == MergeDots(Layout(base, n, negative, leadingZero, length), dots)
    ensures StripDots(Window(r, pos, length)) == Layout(base, n, negative, leadingZero, length)
    ensures ReadNumber(base, StripDots(Window(r, pos, length))) == Some(SignedValue(negative && n > 0, n))
    ensures forall j :: 0 <= j < DigitCount && !(pos <= j < pos + length) ==> r.cells[j] == m.cells[j]
    ensures r.setting == m.setting && r.active == m.setting
  {
    FitsIffFitsIn(base, n, negative, length);
    var digits := FormatNumber(base, n, negative, leadingZero, length);
    LayoutReadsBack(base, n, negative, leadingZero, length);
    StripMergedDots(digits, dots);
    var r := SetSegments(m, MergeDots(digits, dots), pos);
    assert Window(r, pos, length) == MergeDots(digits, dots);
    r
  }

  /** The magnitude of a signed number. */
  function Magnitude(num: int): nat {
    if num < 0 then -num else num
  }

  /** The header's requirement on a decimal number: it fits in `length`
      digits, one of them taken by the sign when it is negative. */
  predicate DecFits(num: int, length: nat) {
    Fits(10, Magnitude(num), num < 0, length)
  }

  /** showNumberDecEx: the decimal number with the dots of the mask. */
  function ShowNumberDecEx(m: Module, num: int, dots: Byte, leadingZero: bool, length: nat, pos: nat): (r: Module)
    requires Valid(m)
    requires pos + length <= DigitCount
    requires DecFits(num, length)
    ensures Valid(r)
    ensures FitsIn(10, Magnitude(num), num < 0, length)
    ensures ReadNumber(10, StripDots(Window(r, pos, length))) == Some(num)
    ensures StripDots(Window(r, pos, length)) == Layout(10, Magnitude(num), num < 0, leadingZero, length)
    ensures forall i :: 0 <= i < PadWidth(10, Magnitude(num), num < 0, length) ==>
      StripDots(Window(r, pos, length))[i] == if leadingZero && 0 <= num then EncodeDigit(0) else Blank
    ensures num < 0 ==> StripDots(Window(r, pos, length))[PadWidth(10, Magnitude(num), true, length)] == Minus
    ensures forall i :: 0 <= i < length ==>
      (Window(r, pos, length)[i] & SegDP != 0 <==> DotSelected(dots, i))
    ensures forall j :: 0 <= j < DigitCount && !(pos <= j < pos + length) ==> r.cells[j] == m.cells[j]
    ensures r.setting == m.setting && r.active == m.setting
  {
    var mag := Magnitude(num);
    DecimalFitsInUint16(mag, num < 0, length);
    var r := ShowNumberBaseEx(m, 10, num < 0, mag, dots, leadingZero, length, pos);
    DotsOfWindow(Layout(10, mag, num < 0, leadingZero, length), dots);
    DecimalRow(StripDots(Window(r, pos, length)), num, leadingZero, length);
    r
  }

  /** showNumberDec: the decimal number, no dots. */
  function ShowNumberDec(m: Module, num: int, leadingZero: bool, length: nat, pos: nat): (r: Module)
    requires Valid(m)
    requires pos + length <= DigitCount
    requires DecFits(num, length)
    ensures Valid(r)
    ensures FitsIn(10, Magnitude(num), num < 0, length)
    ensures ReadNumber(10, Window(r, pos, length)) == Some(num)
    ensures Window(r, pos, length) == Layout(10, Magnitude(num), num < 0, leadingZero, length)
    ensures forall i :: 0 <= i < PadWidth(10, Magnitude(num), num < 0, length) ==>
      Window(r, pos, length)[i] == if leadingZero && 0 <= num then EncodeDigit(0) else Blank
    ensures num < 0 ==> Window(r, pos, length)[PadWidth(10, Magnitude(num), true, length)] == Minus
    ensures forall i :: 0 <= i < length ==> DotClear(Window(r, pos, length)[i])
    ensures forall j :: 0 <= j < DigitCount && !(pos <= j < pos + length) ==> r.cells[j] == m.cells[j]
    ensures r.setting == m.setting && r.active == m.setting
  {
    var r := ShowNumberDecEx(m, num, 0, leadingZero, length, pos);
    var window := Window(r, pos, length);
    assert forall i :: 0 <= i < length ==> !DotSelected(0, i);
    assert forall i :: 0 <= i < length ==> DotClear(window[i]);
    StripNoDots(window);
    r
  }

  /** showNumberHexEx: the unsigned 16-bit number in hexadecimal, with the
      dots of the mask; it never shows a minus mark. */
  function ShowNumberHexEx(m: Module, num: nat, dots: Byte, leadingZero: bool, length: nat, pos: nat): (r: Module)
    requires Valid(m)
    requires num < 0x1_0000
    requires pos + length <= DigitCount
    requires Fits(16, num, false, length)
    ensures Valid(r)
    ensures FitsIn(16, num, false, length)
    ensures ReadNumber(16, StripDots(Window(r, pos, length))) == Some(num as int)
    ensures StripDots(Window(r, pos, length)) == Layout(16, num, false, leadingZero, length)
    ensures forall i :: 0 <= i < PadWidth(16, num, false, length) ==>
      StripDots(Window(r, pos, length))[i] == if leadingZero then EncodeDigit(0) else Blank
    ensures forall i :: 0 <= i < length ==> StripDots(Window(r, pos, length))[i] != Minus
    ensures forall i :: 0 <= i < length ==>
      (Window(r, pos, length)[i] & SegDP != 0 <==> DotSelected(dots, i))
    ensures forall j :: 0 <= j < DigitCount && !(pos <= j < pos + length) ==> r.cells[j] == m.cells[j]
    ensures r.setting == m.setting && r.active == m.setting
  {
    var r := ShowNumberBaseEx(m, 16, false, num, dots, leadingZero, length, pos);
    var cells := Layout(16, num, false, leadingZero, length);
    DotsOfWindow(cells, dots);
    StripMergedDots(cells, dots);
    LayoutSign(16, num, false, leadingZero, length);
    LayoutPaddingAll(StripDots(Window(r, pos, length)), 16, num, false, leadingZero, length);
    r
  }

  /** What the laid-out row of a decimal number shows, stated for the signed
      number: it reads back as `num`, its padding follows the leading-zero
      rule, and a negative number has the minus mark right after it. */
  lemma DecimalRow(w: seq<Byte>, num: int, leadingZero: bool, length: nat)
    requires FitsIn(10, Magnitude(num), num < 0, length)
    requires w == Layout(10, Magnitude(num), num < 0, leadingZero, length)
    ensures ReadNumber(10, w) == Some(num)
    ensures PadWidth(10, Magnitude(num), num < 0, length) <= |w|
    ensures forall i :: 0 <= i < PadWidth(10, Magnitude(num), num < 0, length) ==>
      w[i] == if leadingZero && 0 <= num then EncodeDigit(0) else Blank
    ensures num < 0 ==>
      PadWidth(10, Magnitude(num), true, length) < |w| && w[PadWidth(10, Magnitude(num), true, length)] == Minus
  {
    var mag := Magnitude(num);
    LayoutReadsBack(10, mag, num < 0, leadingZero, length);
    assert SignedValue(num < 0 && mag > 0, mag) == num;
    LayoutPaddingAll(w, 10, mag, num < 0, leadingZero, length);
    LayoutSignAt(w, 10, mag, num < 0, leadingZero, length);
  }

  /** A decimal number that fits in four digits fits the driver's 16-bit
      magnitude argument. */
  lemma DecimalFitsInUint16(mag: nat, negative: bool, length: nat)
    requires length <= DigitCount
    requires Fits(10, mag, negative, length)
    ensures mag < 0x1_0000
  {
    var width := if negative && mag > 0 then length - 1 else length;
    if width == 1 {
      assert Pow(10, 1) == 10;
    } else if width == 2 {
      assert Pow(10, 2) == 100;
    } else if width == 3 {
      assert Pow(10, 3) == 1000;
    } else {
      assert Pow(10, 4) == 10000;
    }
  }

  /** In a row without dots, the merged dots are exactly those of the mask. */
  lemma DotsOfWindow(cells: seq<Byte>, dots: Byte)
    requires forall i :: 0 <= i < |cells| ==> DotClear(cells[i])
    ensures forall i :: 0 <= i < |cells| ==>
      (MergeDots(cells, dots)[i] & SegDP != 0 <==> DotSelected(dots, i))
  {
    forall i | 0 <= i < |cells|
      ensures MergeDots(cells, dots)[i] & SegDP != 0 <==> DotSelected(dots, i)
    {
      MergeDotsKeepsSegments(cells, dots, i);
    }
  }

  /** A new brightness shows only once data is written: until then the
      module runs at the old one, afterwards at the new one. */
  lemma BrightnessAppliedByNextWrite(m: Module, level: nat, on: bool, segments: seq<Byte>, pos: nat)
    requires Valid(m)
    requires level <= MaxLevel
    requires pos + |segments| <= DigitCount
    ensures SetBrightness(m, level, on).active == m.active
    ensures SetSegments(SetBrightness(m, level, on), segments, pos).active == Brightness(level, on)
  {
  }

  /** Writing the same segments twice is the same as writing them once. */
  lemma SetSegmentsIdempotent(m: Module, segments: seq<Byte>, pos: nat)
    requires Valid(m)
    requires pos + |segments| <= DigitCount
    ensures SetSegments(SetSegments(m, segments, pos), segments, pos) == SetSegments(m, segments, pos)
  {
    var once := SetSegments(m, segments, pos);
    var twice := SetSegments(once, segments, pos);
    assert twice.cells == once.cells;
  }

  /** Positions add up: writing `a` at `pos` and then `b` right after it is
      the same as writing `a + b` at `pos`. */
  lemma SetSegmentsAdjacent(m: Module, a: seq<Byte>, b: seq<Byte>, pos: nat)
    requires Valid(m)
    requires pos + |a| + |b| <= DigitCount
    ensures SetSegments(SetSegments(m, a, pos), b, pos + |a|) == SetSegments(m, a + b, pos)
  {
    var split := SetSegments(SetSegments(m, a, pos), b, pos + |a|);
    var whole := SetSegments(m, a + b, pos);
    forall j | 0 <= j < DigitCount
      ensures split.cells[j] == whole.cells[j]
    {
      if pos <= j < pos + |a| {
        assert whole.cells[pos + (j - pos)] == (a + b)[j - pos];
      } else if pos + |a| <= j < pos + |a| + |b| {
        assert split.cells[pos + |a| + (j - pos - |a|)] == b[j - pos - |a|];
        assert whole.cells[pos + (j - pos)] == (a + b)[j - pos];
      }
    }
  }

  /** clear is setSegments of four blank cells at position 0. */
  lemma ClearIsBlankWrite(m: Module)
    requires Valid(m)
    ensures Clear(m) == SetSegments(m, [Blank, Blank, Blank, Blank], 0)
  {
    assert Repeat(Blank, DigitCount) == [Blank, Blank, Blank, Blank];
  }
}
