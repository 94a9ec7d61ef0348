# TM1637 display formatting, modelled in Dafny

The TM1637 driver runs a 4-digit 7-segment LED module. Each digit is one byte: bits 0-6 light segments A-G, and bit 7 lights the dot or colon after the digit. This project models the formatting side of the driver's public interface:

- `encodeDigit` turns the values 0-15 into segment patterns.
- `showNumberBaseEx` lays a number out in base 10 or 16. Its helper `showDots` merges a dots mask into the digits. `showNumberDec`, `showNumberDecEx` and `showNumberHexEx` are built on these two.
- `setSegments` and `clear` act on the four-digit buffer.
- `setBrightness` stores a brightness setting. The module only takes up the new setting with the next command that writes display data.

The bus protocol itself is not modelled. An operation that writes data is modelled by what the module shows afterwards.

Files:

- `wrappers.dfy` holds `Option`.
- `segments.dfy` holds the segment bits, `EncodeDigit` and its inverse `DecodeDigit`.
- `formatter.dfy` holds how a number becomes a row of cells. It has two parts:
  - a declarative reference `Layout` (padding, then an optional minus mark, then the digits), together with the model's own digit extraction `ExtractCells` (a right-to-left pass, last digit first), proved equal to it;
  - dot merging, and a reader `ReadNumber` that takes a row of cells back to the number it shows.
- `display.dfy` holds the module state (four cells, the stored brightness setting, the brightness in effect) and the public operations on it.

The header declares the number operations and documents how they behave. The model takes their behaviour from that documentation. Every number operation is stated against the reader: the cells written read back as the number passed in.

## Model

| member | source | states |
|---|---|---|
| Segments.EncodeDigit | TM1637Display_jp.h:118-126 | for every value 0-15 the pattern has bit 7 (SEG_DP) clear, lights only segments A-G, and is neither blank nor the minus mark |
| Segments.DecodeEncodeDigit | TM1637Display_jp.h:118-126 | every value 0-15 is recovered from its pattern, so no information is lost by encoding |
| Segments.DecodeDigitNone | TM1637Display_jp.h:118-126 | a pattern the decoder rejects is the pattern of no value 0-15 (the other direction of the inverse) |
| Segments.EncodeDigitInjective | TM1637Display_jp.h:118-126 | two values 0-15 have the same pattern if and only if they are equal |
| Segments.HexLettersAreNotDecimal | TM1637Display_jp.h:120-121 | the values 10-15 (the letters A-F) never show as any decimal digit 0-9 |
| Formatter.DigitCells | TM1637Display_jp.h:118-126 | the digit cells of a number are at least one cell, as many as its digits, with no dot, no blank and no minus mark among them |
| Formatter.LeadingDigitNonZero | TM1637Display_jp.h:77 | a positive number's first digit is not zero, so every cell in front of it is a leading position |
| Formatter.FitsIffDigitCount | TM1637Display_jp.h:79-80 | a number is below base^width exactly when its digits fit in `width` cells (e.g. 0-99 for two decimal digits) |
| Formatter.FitsIffFitsIn | TM1637Display_jp.h:79-80 | the caller's fit obligation stated with powers agrees with "sign plus digits fit in `length` cells" |
| Formatter.Layout | TM1637Display_jp.h:76-81 | the row has exactly `length` cells, none with a dot |
| Formatter.FormatNumber | TM1637Display_jp.h:139 | the formatting step computed by digit extraction (last digit first, then the minus mark, then padding) is exactly the reference layout for every number that fits |
| Formatter.ExtractMatchesLayout | TM1637Display_jp.h:139 | for every number that fits, except zero without leading zeros, the digit extraction equals the reference layout |
| Formatter.ExtractLayout | TM1637Display_jp.h:139 | from any positive remainder the digit extraction lays out padding, the pending minus mark and the remainder's digit cells |
| Formatter.ExtractZero | TM1637Display_jp.h:139 | once the number is used up, the digit extraction writes the pending minus mark and pads every cell to its left |
| Formatter.LayoutPadding | TM1637Display_jp.h:77-78 | every cell left of the sign and digits is encodeDigit(0) with leading zeros on a non-negative number, and blank otherwise (always blank for a negative number) |
| Formatter.LayoutPaddingAll | TM1637Display_jp.h:77-78 | every padding cell of a laid-out row is encodeDigit(0) with leading zeros on a non-negative number, and blank otherwise |
| Formatter.LayoutSignAt | TM1637Display_jp.h:78 | in a laid-out negative number the minus mark sits right after the padding |
| Formatter.LayoutSign | TM1637Display_jp.h:78 | a negative number shows the minus mark right in front of its digits, and a non-negative one shows no minus mark anywhere |
| Formatter.LayoutReadsBack | TM1637Display_jp.h:72-81 | reading the laid-out row gives back the signed number, whether it is padded with blanks or zeros |
| Formatter.ValueOfDigits | TM1637Display_jp.h:74 | the digits of a number, read most significant first, stand for the number |
| Formatter.ValueLeadingZeros | TM1637Display_jp.h:77 | zeros in front of the digits do not change the value shown |
| Formatter.MergeDots | TM1637Display_jp.h:137 | each cell gets SEG_DP OR-ed in exactly when its bit of the mask (bit 7 for the first cell, bit 6 for the next, ...) is set, and is unchanged otherwise |
| Formatter.MergeDotsKeepsSegments | TM1637Display_jp.h:89-90 | merging dots never changes segments A-G, and a cell's dot is lit iff it already was or its mask bit is set |
| Formatter.MergeNoDots | TM1637Display_jp.h:105 | a mask of 0 leaves every cell unchanged |
| Formatter.DotMaskExamples | TM1637Display_jp.h:91-99 | 0b10000000 lights only the first cell's dot, 0b01000000 only the second's, 0b00100000 only the third's, and 0b11100000 the first three |
| Formatter.StripMergedDots | TM1637Display_jp.h:137 | clearing the dot bits undoes merging a mask into a row that had no dots |
| Display.SetBrightness | TM1637Display_jp.h:47-53 | stores the level 0-7 and the on/off flag, and changes neither the digits shown nor the brightness in effect |
| Display.BrightnessAppliedByNextWrite | TM1637Display_jp.h:49 | after setBrightness the module keeps its old brightness until the next data write, which brings the new setting into effect |
| Display.SetSegments | TM1637Display_jp.h:55-67 | digit `pos + i` takes `segments[i]` (position 0 leftmost), every digit outside the window keeps its pattern, and the stored brightness takes effect |
| Display.SetSegmentsIdempotent | TM1637Display_jp.h:55-67 | writing the same segments twice at the same position is the same as writing them once |
| Display.SetSegmentsAdjacent | TM1637Display_jp.h:60-62 | writing `a` at `pos` and then `b` right after it equals writing `a + b` at `pos` |
| Display.Clear | TM1637Display_jp.h:69-70 | every digit becomes blank, dots included |
| Display.ClearIsBlankWrite | TM1637Display_jp.h:69-70 | clear is a write of four blank cells at position 0 |
| Display.ShowNumberBaseEx | TM1637Display_jp.h:139 | the window holds the layout with the mask's dots merged in, reads back as the signed number once the dots are cleared, leaves the other digits unchanged, and applies the brightness setting |
| Display.ShowNumberDecEx | TM1637Display_jp.h:84-105 | with the dots cleared the window is the reference layout of `num` and reads back as `num` in decimal; its padding is encodeDigit(0) when `leading_zero` is set and `num` is not negative, and blank otherwise; a negative number has the minus mark right after the padding; the dots are lit exactly as the mask selects; other digits are unchanged |
| Display.ShowNumberDec | TM1637Display_jp.h:72-82 | the window is the reference layout of `num` and reads back as `num` in decimal; its padding is encodeDigit(0) when `leading_zero` is set and `num` is not negative, and blank otherwise; a negative number has the minus mark right after the padding; no dot is lit; other digits are unchanged |
| Display.ShowNumberHexEx | TM1637Display_jp.h:107-116 | with the dots cleared the window is the reference layout of `num` and reads back as `num` in hexadecimal; its padding is encodeDigit(0) when `leading_zero` is set and blank otherwise; it never shows a minus mark; the dots are lit exactly as the mask selects; other digits are unchanged |
| Display.DecimalRow | TM1637Display_jp.h:77-78 | the laid-out row of a signed decimal number reads back as the number, pads with zeros only for a non-negative number asked for with leading zeros, and puts the minus mark of a negative number right after the padding |
| Display.DecimalFitsInUint16 | TM1637Display_jp.h:82 | the magnitude of a decimal number that fits in at most four digits fits the 16-bit magnitude argument of showNumberBaseEx |

## Left out

- The bus protocol (`bitDelay`, `start`, `stop`, `writeByte`, lines 129-135) is left out. It toggles pins with microsecond timing and samples an acknowledge from hardware. The command bytes it sends do not appear in the header.
- The constructor, the pin fields and `DEFAULT_BIT_DELAY` (lines 34, 45, 142-145) are left out. They are hardware configuration with no logic to state.
- The implementation file is not part of this model. Operation bodies follow the header's documentation.
- Formatter.ExtractCells: the header declares showNumberBaseEx (line 139) without a body, so the right-to-left digit extraction is the model's own algorithm. It is not taken from driver code. What carries over to the driver is the layout it is proved equal to.
- Formatter.MergeDots: bit 7 of the dots mask belongs to the first digit written, at `pos`, and not to the module's leftmost digit. With `pos` = 2 and mask 0b01000000, the dot of digit 3 lights. The header's examples (lines 89-99) only show full-width rows, so counting from `pos` is the model's reading.
- Segments.EncodeDigit: the header states only the shape constraints of the patterns. The 16-entry table (0x3F, 0x06, 0x5B, 0x4F, 0x66, 0x6D, 0x7D, 0x07, 0x7F, 0x6F, 0x77, 0x7C, 0x39, 0x5E, 0x79, 0x71) is the conventional hexadecimal 7-segment set and is an assumption of the model.
- Segments.Minus: the minus mark is taken to be SEG_G alone. The header does not say which pattern is used.
- Display.ShowNumberBaseEx takes the sign as an explicit `negative` flag. The header's signature instead carries it in the sign of the `int8_t` base, next to an unsigned magnitude. A negative flag with magnitude 0 shows plain zero.
- Display.ShowNumberDecEx, Display.ShowNumberDec, Display.ShowNumberHexEx and Display.ShowNumberBaseEx require the number to fit in `length` digits of the base, with one digit taken by the minus mark. The header makes this the caller's obligation (lines 79-80), so what the driver shows for a number that does not fit is not modelled.
- Formatter.LayoutPadding: for a negative number with `leading_zero` set, the model pads with blanks. The header says only that leading zeros are not supported for negative numbers.
- Display.SetBrightness requires the level to be 0-7, the range the header documents (line 51). What the driver does with a larger `uint8_t` is not modelled.
- Display.SetSegments requires `pos + length <= 4`. Digits beyond the fourth do not exist on the module.
- Default arguments (`on = true`, `length = 4`, `pos = 0`, `dots = 0`, `leading_zero = false`) are not modelled. Every model operation takes all of its arguments explicitly.
- Integer widths of the arguments (`int`, `uint8_t`, `uint16_t`) do not matter under the fit requirement: every number that fits in four digits lies well inside them (Display.DecimalFitsInUint16). The hexadecimal entry point and showNumberBaseEx keep the 16-bit bound as a requirement.
