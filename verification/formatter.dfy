/**
  Turning a number into the row of segment patterns the display shows for it
  (showNumberBaseEx), and merging the dot mask into that row (showDots).

  The row is `length` cells long, most significant cell first. From the left
  it holds: padding, then a minus mark when the number is negative, then the
  digits of the magnitude without leading zeros. Padding is blank, except that
  a non-negative number asked for with leading zeros is padded with zeros.
 */
module Formatter {
  import opened Wrappers
  import opened Segments

  /** A radix whose digits encodeDigit can show. */
  predicate ValidBase(base: nat) {
    2 <= base <= 16
  }

  function Pow(base: nat, k: nat): nat {
    if k == 0 then 1 else base * Pow(base, k - 1)
  }

  function Repeat(cell: Byte, count: nat): (r: seq<Byte>)
    ensures |r| == count
    ensures forall i :: 0 <= i < count ==> r[i] == cell
  {
    seq(count, _ => cell)
  }

  /** The digits of `n` in `base`, most significant first, without leading
      zeros; zero is written as the one digit 0. */
  function Digits(base: nat, n: nat): (r: seq<nat>)
    requires ValidBase(base)
    ensures 1 <= |r|
    ensures forall i :: 0 <= i < |r| ==> r[i] < base
    decreases n
  {
    if n < base then [n] else Digits(base, n / base) + [n % base]
  }

  /** A positive number starts with a non-zero digit, so every position to
      the left of its digits is more significant than its first non-zero digit. */
  lemma {:induction false} LeadingDigitNonZero(base: nat, n: nat)
    requires ValidBase(base)
    requires 0 < n
    ensures Digits(base, n)[0] != 0
    decreases n
  {
    if n >= base {
      LeadingDigitNonZero(base, n / base);
    }
  }

  /** The patterns of a row of digits, cell by cell. */
  function EncodeRow(ds: seq<nat>): (r: seq<Byte>)
    requires forall i :: 0 <= i < |ds| ==> ds[i] < 16
    ensures |r| == |ds|
    ensures forall i :: 0 <= i < |ds| ==> r[i] == EncodeDigit(ds[i])
  {
    seq(|ds|, i requires 0 <= i < |ds| => EncodeDigit(ds[i]))
  }

  /** The digit cells of `n`: no dot, no blank and no minus mark among them. */
  function DigitCells(base: nat, n: nat): (r: seq<Byte>)
    requires ValidBase(base)
    ensures 1 <= |r| && |r| == |Digits(base, n)|
    ensures forall i :: 0 <= i < |r| ==> DotClear(r[i]) && r[i] != Blank && r[i] != Minus
  {
    EncodeRow(Digits(base, n))
  }

  lemma {:induction false} PowPositive(base: nat, k: nat)
    requires ValidBase(base)
    ensures 1 <= Pow(base, k)
  {
    if k > 0 {
      PowPositive(base, k - 1);
      var p := Pow(base, k - 1);
      assert base * p == base * (p - 1) + base;
    }
  }

  lemma PowAtLeastBase(base: nat, k: nat)
    requires ValidBase(base)
    requires 1 <= k
    ensures base <= Pow(base, k)
  {
    var p := Pow(base, k - 1);
    PowPositive(base, k - 1);
    assert base * p == base * (p - 1) + base;
  }

  /** Dropping the last digit turns "below base * p" into "below p". */
  lemma DivBelow(n: nat, base: nat, p: nat)
    requires 0 < base
    ensures n < base * p <==> n / base < p
  {
    var q, m := n / base, n % base;
    assert n == q * base + m && m < base;
    if q < p {
      assert q * base <= (p - 1) * base;
    } else {
      assert q * base >= p * base;
    }
  }

  /** A number is below base^width exactly when its digits fit in `width`
      cells: this is the header's "0-99 for two decimal digits". */
  lemma {:induction false} FitsIffDigitCount(base: nat, n: nat, width: nat)
    requires ValidBase(base)
    requires 1 <= width
    ensures n < Pow(base, width) <==> |Digits(base, n)| <= width
    decreases n
  {
    PowAtLeastBase(base, width);
    if n >= base && width > 1 {
      var high, p := n / base, Pow(base, width - 1);
      LastDigit(base, n);
      FitsIffDigitCount(base, high, width - 1);
      DivBelow(n, base, p);
      assert Pow(base, width) == base * p;
    }
  }

  /** The minus mark in front of the digits, when there is one: a negative
      flag on zero shows no sign. */
  function SignCells(negative: bool, n: nat): seq<Byte> {
    if negative && n > 0 then [Minus] else []
  }

  /** The caller's obligation: sign and digits fit in `length` cells. */
  predicate FitsIn(base: nat, n: nat, negative: bool, length: nat)
    requires ValidBase(base)
  {
    |SignCells(negative, n)| + |DigitCells(base, n)| <= length
  }

  /**
    The header's form of the caller's obligation: the number is below
    base^length (0-99 for two decimal digits), and a negative number keeps
    one of the `length` cells for its sign.
   */
  predicate Fits(base: nat, n: nat, negative: bool, length: nat) {
    var width := if negative && n > 0 then length - 1 else length;
    1 <= width <= length && n < Pow(base, width)
  }

  /** The two forms of the obligation agree. */
  lemma FitsIffFitsIn(base: nat, n: nat, negative: bool, length: nat)
    requires ValidBase(base)
    requires 1 <= length
    ensures Fits(base, n, negative, length) <==> FitsIn(base, n, negative, length)
  {
    if negative && n > 0 {
      if length > 1 {
        FitsIffDigitCount(base, n, length - 1);
      }
    } else {
      FitsIffDigitCount(base, n, length);
    }
  }

  /** What pads the row on the left: zeros only for a non-negative number
      asked for with leading zeros, blanks otherwise. */
  function PadCell(negative: bool, n: nat, leadingZero: bool): Byte {
    if leadingZero && !(negative && n > 0) then EncodeDigit(0) else Blank
  }

  /** The row of cells the display shows for a number: the reference layout. */
  function Layout(base: nat, n: nat, negative: bool, leadingZero: bool, length: nat): (r: seq<Byte>)
    requires ValidBase(base)
    requires FitsIn(base, n, negative, length)
    ensures |r| == length
    ensures forall i :: 0 <= i < |r| ==> DotClear(r[i])
  {
    var body := SignCells(negative, n) + DigitCells(base, n);
    Repeat(PadCell(negative, n, leadingZero), length - |body|) + body
  }

  /**
    The model's digit extraction: a pass over the row from the rightmost cell
    leftwards. Each cell takes the last digit of what is left of the number;
    once nothing is left, the next cell takes the pending minus mark and the
    rest `pad`. `rest` is what is left of the number, `count` the cells still
    to fill. ExtractMatchesLayout proves it equal to the reference Layout.
   */
  function ExtractCells(base: nat, rest: nat, count: nat, minusPending: bool, pad: Byte): (r: seq<Byte>)
    requires ValidBase(base)
    ensures |r| == count
    decreases count
  {
    if count == 0 then []
    else if rest == 0 && minusPending then ExtractCells(base, 0, count - 1, false, pad) + [Minus]
    else if rest == 0 then ExtractCells(base, 0, count - 1, false, pad) + [pad]
    else ExtractCells(base, rest / base, count - 1, minusPending, pad) + [EncodeDigit(rest % base)]
  }

  /**
    The formatting step of showNumberBaseEx, computed by digit extraction.
    Zero without leading zeros is the one case the extraction above cannot
    produce (its padding would blank the last cell too), so it is written out
    directly.
   */
  function FormatNumber(base: nat, n: nat, negative: bool, leadingZero: bool, length: nat): (r: seq<Byte>)
    requires ValidBase(base)
    requires FitsIn(base, n, negative, length)
    ensures r == Layout(base, n, negative, leadingZero, length)
  {
    if n == 0 && !leadingZero then
      assert DigitCells(base, 0) == [EncodeDigit(0)];
      Repeat(Blank, length - 1) + [EncodeDigit(0)]
    else
      var pad := PadCell(negative, n, leadingZero);
      ExtractMatchesLayout(base, n, negative, leadingZero, length);
      ExtractCells(base, n, length, negative && n > 0, pad)
  }

  /** Apart from zero without leading zeros, the pass produces the layout. */
  lemma ExtractMatchesLayout(base: nat, n: nat, negative: bool, leadingZero: bool, length: nat)
    requires ValidBase(base)
    requires FitsIn(base, n, negative, length)
    requires n == 0 ==> leadingZero
    ensures ExtractCells(base, n, length, negative && n > 0, PadCell(negative, n, leadingZero))
         == Layout(base, n, negative, leadingZero, length)
  {
    var pad := PadCell(negative, n, leadingZero);
    if n == 0 {
      ExtractZero(base, length, false, pad);
      assert DigitCells(base, 0) == [EncodeDigit(0)];
      assert Repeat(pad, length - 1) + [EncodeDigit(0)] == Repeat(pad, length);
    } else {
      ExtractLayout(base, n, length, negative, pad);
    }
  }

  /** Once the number is used up, the pass writes the pending minus mark and
      pads everything to its left. */
  lemma {:induction false} ExtractZero(base: nat, count: nat, minusPending: bool, pad: Byte)
    requires ValidBase(base)
    requires (if minusPending then 1 else 0) <= count
    ensures ExtractCells(base, 0, count, minusPending, pad)
         == Repeat(pad, count - (if minusPending then 1 else 0)) + (if minusPending then [Minus] else [])
    decreases count
  {
    if count > 0 {
      ExtractZero(base, count - 1, false, pad);
      if !minusPending {
        assert Repeat(pad, count - 1) + [pad] == Repeat(pad, count);
      }
    }
  }

  /** A number of two or more digits is its leading digits followed by its
      last digit. */
  lemma DigitCellsSnoc(base: nat, n: nat)
    requires ValidBase(base)
    requires base <= n
    ensures DigitCells(base, n) == DigitCells(base, n / base) + [EncodeDigit(n % base)]
  {
    LastDigit(base, n);
  }

  /** One step of the pass on a number not yet used up. */
  lemma ExtractStep(base: nat, rest: nat, count: nat, minusPending: bool, pad: Byte)
    requires ValidBase(base)
    requires 0 < rest && 0 < count
    ensures ExtractCells(base, rest, count, minusPending, pad)
         == ExtractCells(base, rest / base, count - 1, minusPending, pad) + [EncodeDigit(rest % base)]
  {
  }

  /** The pass on a one-digit number: the digit, then the sign, then padding. */
  lemma ExtractSingleDigit(base: nat, rest: nat, count: nat, minusPending: bool, pad: Byte)
    requires ValidBase(base)
    requires 0 < rest < base
    requires (if minusPending then 1 else 0) + 1 <= count
    ensures ExtractCells(base, rest, count, minusPending, pad)
         == Repeat(pad, count - (if minusPending then 1 else 0) - 1)
            + (if minusPending then [Minus] else []) + [EncodeDigit(rest)]
  {
    ExtractStep(base, rest, count, minusPending, pad);
    SmallDivision(rest, base);
    ExtractZero(base, count - 1, minusPending, pad);
  }

  lemma SmallDivision(n: nat, d: nat)
    requires n < d
    ensures n / d == 0 && n % d == n
  {
  }

  /** The right-to-left pass lays out a positive number as padding, sign and
      digits. */
  lemma {:induction false} ExtractLayout(base: nat, rest: nat, count: nat, minusPending: bool, pad: Byte)
    requires ValidBase(base)
    requires 0 < rest
    requires (if minusPending then 1 else 0) + |DigitCells(base, rest)| <= count
    ensures ExtractCells(base, rest, count, minusPending, pad)
         == Repeat(pad, count - (if minusPending then 1 else 0) - |DigitCells(base, rest)|)
            + (if minusPending then [Minus] else []) + DigitCells(base, rest)
    decreases count
  {
    if rest < base {
      ExtractSingleDigit(base, rest, count, minusPending, pad);
    } else {
      ExtractStep(base, rest, count, minusPending, pad);
      ExtractLayout(base, rest / base, count - 1, minusPending, pad);
      DigitCellsSnoc(base, rest);
    }
  }

  /** Bit `7 - i` of the dots mask: bit 7 belongs to the leftmost cell of the
      row, bit 6 to the next, and so on. */
  predicate DotSelected(dots: Byte, i: nat) {
    i < 8 && (dots >> (7 - i)) & 1 == 1
  }

  /**
    showDots: the dot bit of each cell is OR-ed with the top bit of the mask,
    and the mask is shifted left by one per cell.
   */
  function MergeDots(cells: seq<Byte>, dots: Byte): (r: seq<Byte>)
    ensures |r| == |cells|
    ensures forall i :: 0 <= i < |r| ==>
      r[i] == if DotSelected(dots, i) then cells[i] | SegDP else cells[i]
    decreases |cells|
  {
    if cells == [] then []
    else
      var r := [cells[0] | (dots & SegDP)] + MergeDots(cells[1..], dots << 1);
      assert forall i :: 0 <= i < |r| ==>
        r[i] == if DotSelected(dots, i) then cells[i] | SegDP else cells[i] by {
        forall i | 0 <= i < |r|
          ensures r[i] == if DotSelected(dots, i) then cells[i] | SegDP else cells[i]
        {
          if i > 0 {
            ShiftedDot(dots, i - 1);
          }
        }
      }
      r
  }

  /** Shifting the mask left by one moves every cell's bit to the cell
      before it. */
  lemma ShiftedDot(dots: Byte, i: nat)
    ensures DotSelected(dots << 1, i) == DotSelected(dots, i + 1)
  {
  }

  /** Merging the mask touches only the dot bit: segments A-G stay as they
      were, and a cell's dot is lit exactly when it was or its bit is set. */
  lemma MergeDotsKeepsSegments(cells: seq<Byte>, dots: Byte, i: nat)
    requires i < |cells|
    ensures MergeDots(cells, dots)[i] & DigitSegments == cells[i] & DigitSegments
    ensures MergeDots(cells, dots)[i] & SegDP != 0 <==> cells[i] & SegDP != 0 || DotSelected(dots, i)
  {
  }

  /** A zero mask changes nothing. */
  lemma MergeNoDots(cells: seq<Byte>)
    ensures MergeDots(cells, 0) == cells
  {
    assert forall i: nat :: !DotSelected(0, i);
  }

  /** The masks the header lists: 0b10000000 lights the dot after the first
      digit, 0b01000000 after the second, 0b00100000 after the third, and
      0b11100000 all three. */
  lemma DotMaskExamples(i: nat)
    requires i < 4
    ensures DotSelected(0x80, i) <==> i == 0
    ensures DotSelected(0x40, i) <==> i == 1
    ensures DotSelected(0x20, i) <==> i == 2
    ensures DotSelected(0xE0, i) <==> i < 3
  {
  }

  /** The cells with their dot bits cleared. */
  function StripDots(cells: seq<Byte>): (r: seq<Byte>)
    ensures |r| == |cells|
    ensures forall i :: 0 <= i < |r| ==> DotClear(r[i])
  {
    seq(|cells|, i requires 0 <= i < |cells| => cells[i] & DigitSegments)
  }

  /** Stripping a row without dots changes nothing. */
  lemma StripNoDots(cells: seq<Byte>)
    requires forall i :: 0 <= i < |cells| ==> DotClear(cells[i])
    ensures StripDots(cells) == cells
  {
    assert forall i :: 0 <= i < |cells| ==> StripDots(cells)[i] == cells[i];
  }

  /** Stripping the dots undoes merging them into a row that had none. */
  lemma StripMergedDots(cells: seq<Byte>, dots: Byte)
    requires forall i :: 0 <= i < |cells| ==> DotClear(cells[i])
    ensures StripDots(MergeDots(cells, dots)) == cells
  {
    var r := StripDots(MergeDots(cells, dots));
    forall i | 0 <= i < |cells|
      ensures r[i] == cells[i]
    {
      MergeDotsKeepsSegments(cells, dots, i);
    }
  }

  /** The value of one cell read as a digit of `base`, if it is one. */
  function ReadDigit(base: nat, cell: Byte): (r: Option<nat>)
    ensures r.Some? ==> r.value < base && r.value < 16 && EncodeDigit(r.value) == cell
  {
    match DecodeDigit(cell)
    case Some(d) => if d < base then Some(d) else None
    case None => None
  }

  /** The digits a row of cells shows; None when a cell is not a digit of `base`. */
  function DecodeRow(base: nat, cells: seq<Byte>): (r: Option<seq<nat>>)
    ensures r.Some? ==> |r.value| == |cells|
  {
    if forall i :: 0 <= i < |cells| ==> ReadDigit(base, cells[i]).Some? then
      Some(seq(|cells|, i requires 0 <= i < |cells| => ReadDigit(base, cells[i]).value))
    else None
  }

  /** The number a row of digits stands for, most significant first. */
  function Value(base: nat, ds: seq<nat>): nat
    decreases |ds|
  {
    if ds == [] then 0 else Value(base, ds[..|ds| - 1]) * base + ds[|ds| - 1]
  }

  /** The number a row of digit cells shows, if every cell is a digit. */
  function ReadDigits(base: nat, cells: seq<Byte>): Option<nat> {
    match DecodeRow(base, cells)
    case Some(ds) => Some(Value(base, ds))
    case None => None
  }

  /** The cells left once the blank cells on the left are skipped. */
  function SkipBlanks(cells: seq<Byte>): (r: seq<Byte>)
    ensures |r| <= |cells| && r == cells[|cells| - |r|..]
    ensures r != [] ==> r[0] != Blank
    decreases |cells|
  {
    if cells != [] && cells[0] == Blank then SkipBlanks(cells[1..]) else cells
  }

  /**
    How a reader of the display takes a row: blanks, then an optional minus
    mark, then at least one digit. None when the row is not of that shape.
   */
  function ReadNumber(base: nat, cells: seq<Byte>): Option<int> {
    ReadSigned(base, SkipBlanks(cells))
  }

  /** An optional minus mark followed by at least one digit. */
  function ReadSigned(base: nat, body: seq<Byte>): Option<int> {
    if body == [] then None
    else if body[0] == Minus then
      if |body| == 1 then None
      else
        match ReadDigits(base, body[1..])
        case Some(v) => Some(-(v as int))
        case None => None
    else
      match ReadDigits(base, body)
      case Some(v) => Some(v as int)
      case None => None
  }

  /** A digit cell of `base` reads back as its digit. */
  lemma ReadEncodedDigit(base: nat, d: nat)
    requires ValidBase(base)
    requires d < base
    ensures ReadDigit(base, EncodeDigit(d)) == Some(d)
  {
    DecodeEncodeDigit(d);
  }

  /** Decoding a row of digit cells gives back the digits. */
  lemma DecodeEncodeRow(base: nat, ds: seq<nat>)
    requires ValidBase(base)
    requires forall i :: 0 <= i < |ds| ==> ds[i] < base
    ensures DecodeRow(base, EncodeRow(ds)) == Some(ds)
  {
    var cells := EncodeRow(ds);
    forall i | 0 <= i < |ds|
      ensures ReadDigit(base, cells[i]) == Some(ds[i])
    {
      ReadEncodedDigit(base, ds[i]);
    }
    assert DecodeRow(base, cells).value == ds;
  }

  /** The digits of a number stand for the number. */
  lemma {:induction false} ValueOfDigits(base: nat, n: nat)
    requires ValidBase(base)
    ensures Value(base, Digits(base, n)) == n
    decreases n
  {
    var ds := Digits(base, n);
    if n < base {
      assert ds[..0] == [];
    } else {
      var high, low := n / base, n % base;
      LastDigit(base, n);
      ValueOfDigits(base, high);
      assert ds[..|ds| - 1] == Digits(base, high);
    }
  }

  /** Splitting off the last digit of a number of two or more digits. */
  lemma LastDigit(base: nat, n: nat)
    requires ValidBase(base)
    requires base <= n
    ensures Digits(base, n) == Digits(base, n / base) + [n % base]
    ensures (n / base) * base + n % base == n
    ensures 0 < n / base < n
  {
    var q := n / base;
    assert q * base + n % base == n;
    DoubleAtMost(q, base);
  }

  lemma DoubleAtMost(q: nat, base: nat)
    requires 2 <= base
    ensures 2 * q <= q * base
  {
    var c := base - 2;
    assert q * base == q * (c + 2) == q * c + 2 * q;
  }

  function Zeros(count: nat): (r: seq<nat>)
    ensures |r| == count
    ensures forall i :: 0 <= i < count ==> r[i] == 0
  {
    seq(count, _ => 0)
  }

  /** Zeros in front of a row of digits do not change its value. */
  lemma {:induction false} ValueLeadingZeros(base: nat, zeros: nat, ds: seq<nat>)
    ensures Value(base, Zeros(zeros) + ds) == Value(base, ds)
    decreases |ds|, zeros
  {
    var all := Zeros(zeros) + ds;
    if ds == [] {
      if zeros > 0 {
        assert all[..|all| - 1] == Zeros(zeros - 1) + [];
        ValueLeadingZeros(base, zeros - 1, []);
      }
    } else {
      assert all[..|all| - 1] == Zeros(zeros) + ds[..|ds| - 1];
      ValueLeadingZeros(base, zeros, ds[..|ds| - 1]);
    }
  }

  /** Skipping blanks in front of a row that does not start blank. */
  lemma {:induction false} SkipPadding(count: nat, cells: seq<Byte>)
    requires cells != [] && cells[0] != Blank
    ensures SkipBlanks(Repeat(Blank, count) + cells) == cells
    decreases count
  {
    if count > 0 {
      assert (Repeat(Blank, count) + cells)[1..] == Repeat(Blank, count - 1) + cells;
      SkipPadding(count - 1, cells);
    }
  }

  /** The number a sign flag and a magnitude stand for. */
  function SignedValue(negative: bool, n: nat): int {
    if negative then -(n as int) else n as int
  }

  /** Reading the laid-out row gives back the signed number: the layout loses
      nothing, whatever the base, padding and sign. */
  lemma LayoutReadsBack(base: nat, n: nat, negative: bool, leadingZero: bool, length: nat)
    requires ValidBase(base)
    requires FitsIn(base, n, negative, length)
    ensures ReadNumber(base, Layout(base, n, negative, leadingZero, length))
         == Some(SignedValue(negative && n > 0, n))
  {
    var body := SignCells(negative, n) + DigitCells(base, n);
    var pad := PadCell(negative, n, leadingZero);
    assert Layout(base, n, negative, leadingZero, length) == Repeat(pad, length - |body|) + body;
    if pad == Blank {
      BlankPaddedReadsBack(base, n, negative, length);
    } else {
      assert body == DigitCells(base, n);
      ZeroPaddedReadsBack(base, n, length);
    }
  }

  /** The digit cells of a number read back as the number. */
  lemma ReadDigitCells(base: nat, n: nat)
    requires ValidBase(base)
    ensures ReadDigits(base, DigitCells(base, n)) == Some(n)
  {
    DecodeEncodeRow(base, Digits(base, n));
    ValueOfDigits(base, n);
  }

  lemma BlankPaddedReadsBack(base: nat, n: nat, negative: bool, length: nat)
    requires ValidBase(base)
    requires FitsIn(base, n, negative, length)
    ensures var body := SignCells(negative, n) + DigitCells(base, n);
      ReadNumber(base, Repeat(Blank, length - |body|) + body) == Some(SignedValue(negative && n > 0, n))
  {
    var body := SignCells(negative, n) + DigitCells(base, n);
    SkipPadding(length - |body|, body);
    ReadSignAndDigits(base, n, negative);
  }

  /** A sign followed by the digits reads back as the signed number. */
  lemma ReadSignAndDigits(base: nat, n: nat, negative: bool)
    requires ValidBase(base)
    ensures ReadSigned(base, SignCells(negative, n) + DigitCells(base, n)) == Some(SignedValue(negative && n > 0, n))
  {
    var digits := DigitCells(base, n);
    var body := SignCells(negative, n) + digits;
    ReadDigitCells(base, n);
    if negative && n > 0 {
      assert body[1..] == digits;
    } else {
      assert body == digits;
    }
  }

  lemma ZeroPaddedReadsBack(base: nat, n: nat, length: nat)
    requires ValidBase(base)
    requires |DigitCells(base, n)| <= length
    ensures var digits := DigitCells(base, n);
      ReadNumber(base, Repeat(EncodeDigit(0), length - |digits|) + digits) == Some(n as int)
  {
    var ds := Digits(base, n);
    var w := length - |ds|;
    var padded := Zeros(w) + ds;
    ValueOfDigits(base, n);
    assert Repeat(EncodeDigit(0), w) + DigitCells(base, n) == EncodeRow(padded);
    DecodeEncodeRow(base, padded);
    ValueLeadingZeros(base, w, ds);
    assert SkipBlanks(EncodeRow(padded)) == EncodeRow(padded);
  }

  /** The header's promise about leading cells: every cell to the left of the
      sign and the digits is blank, or a zero when a non-negative number is
      shown with leading zeros; a negative number never gets leading zeros. */
  lemma LayoutPadding(base: nat, n: nat, negative: bool, leadingZero: bool, length: nat, i: nat)
    requires ValidBase(base)
    requires FitsIn(base, n, negative, length)
    requires i < length - |SignCells(negative, n)| - |DigitCells(base, n)|
    ensures leadingZero && !(negative && n > 0) ==> Layout(base, n, negative, leadingZero, length)[i] == EncodeDigit(0)
    ensures !leadingZero || (negative && n > 0) ==> Layout(base, n, negative, leadingZero, length)[i] == Blank
  {
  }

  /** The number of padding cells in front of the sign and the digits. */
  function PadWidth(base: nat, n: nat, negative: bool, length: nat): nat
    requires ValidBase(base)
    requires FitsIn(base, n, negative, length)
  {
    length - |SignCells(negative, n)| - |DigitCells(base, n)|
  }

  /** LayoutPadding for every leading cell of a laid-out row at once. */
  lemma LayoutPaddingAll(cells: seq<Byte>, base: nat, n: nat, negative: bool, leadingZero: bool, length: nat)
    requires ValidBase(base)
    requires FitsIn(base, n, negative, length)
    requires cells == Layout(base, n, negative, leadingZero, length)
    ensures PadWidth(base, n, negative, length) <= |cells|
    ensures forall i :: 0 <= i < PadWidth(base, n, negative, length) ==>
      cells[i] == if leadingZero && !(negative && n > 0) then EncodeDigit(0) else Blank
  {
    forall i | 0 <= i < PadWidth(base, n, negative, length)
      ensures cells[i] == if leadingZero && !(negative && n > 0) then EncodeDigit(0) else Blank
    {
      LayoutPadding(base, n, negative, leadingZero, length, i);
    }
  }

  /** LayoutSign for a laid-out row: the minus mark follows the padding. */
  lemma LayoutSignAt(cells: seq<Byte>, base: nat, n: nat, negative: bool, leadingZero: bool, length: nat)
    requires ValidBase(base)
    requires FitsIn(base, n, negative, length)
    requires cells == Layout(base, n, negative, leadingZero, length)
    ensures negative && n > 0 ==>
      PadWidth(base, n, negative, length) < |cells| && cells[PadWidth(base, n, negative, length)] == Minus
  {
    LayoutSign(base, n, negative, leadingZero, length);
  }

  /** A negative number shows the minus mark right in front of its most
      significant digit; a non-negative one shows no minus mark anywhere. */
  lemma LayoutSign(base: nat, n: nat, negative: bool, leadingZero: bool, length: nat)
    requires ValidBase(base)
    requires FitsIn(base, n, negative, length)
    ensures negative && n > 0 ==>
      Layout(base, n, negative, leadingZero, length)[length - |DigitCells(base, n)| - 1] == Minus
    ensures !(negative && n > 0) ==>
      forall i :: 0 <= i < length ==> Layout(base, n, negative, leadingZero, length)[i] != Minus
  {
    var r := Layout(base, n, negative, leadingZero, length);
    if !(negative && n > 0) {
      forall i | 0 <= i < length
        ensures r[i] != Minus
      {
        var w := length - |DigitCells(base, n)|;
        if i >= w {
          assert r[i] == DigitCells(base, n)[i - w];
        }
      }
    }
  }
}
