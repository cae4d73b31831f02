# mrchead — a verified model of the header report

`mrchead` prints the header of an MRC image file as a terminal report. The
report has two parts. The first is a table titled "Header for <file name>",
whose three rows come in a fixed order: the size on disk, the image shape and
the voxel spacing. The second is a tree whose children are the non-empty label
records of the header.

This project models the logic of that report in Dafny and proves what it
promises. Five modules make up the model:

- `Format` (format.dfy) holds the text building blocks:
  - decimal digit strings of integers, and right-justification to a minimum
    width (`{:5d}`, and the width of `{:3.1f}`);
  - one-decimal fixed-point text (`.1f`);
  - a whitespace tokenizer used to read formatted text back.
- `HumanSize` (human_size.dfy) models `human_filesize`.
  - The method `HumanFilesize` keeps the source's loop over the prefixes
    `""`, `Ki`, `Mi`, `Gi`, `Ti`, `Pi`, `Ei`, `Zi`. The running value `num` is
    divided by 1024 in place, with an early return.
  - The loop is proved equal to the function `SizeText`. That function chooses
    the prefix by an exact integer question: the first `k` with
    |n| < 1024^(k+1), or the `Yi` fallback at `k = 8`.
  - The shown value is n / 1024^k.
  - Byte counts near the top of a prefix round up. One byte short of a mebibyte
    is shown as "1024.0 KiB" (`TextJustBelowMebi`).
- `ImageShape` (image_shape.dfy) models the image-shape string
  `f'{nx:5d} {ny:5d} {nz:5d}'`.
- `Labels` (labels.dfy) models the loop that adds every label row of length
  greater than 0 to the tree under the root `|`. The method `BuildLabelTree`
  keeps the loop; the function `NonEmptyRows` is the filter it computes.
- `Report` (report.dfy) models the body of the `mrchead` command once the
  header is decoded: the title, the three rows in order, and the label tree.

The `.1f` text is modelled as round-half-to-even of ten times the magnitude,
then the sign. This is what Python prints for a value that is exact in binary.
n / 1024^k is exact in binary whenever |n| < 2^53.

The label filter follows the code: it keeps every row with `len(row) > 0`. A
padding-only row such as `"  \x00\x00"` is sometimes described as dropped
because it is empty "after removing trailing padding". In the code, the only
trimming is done by the header decoder, which removes
trailing NUL bytes. That row reaches the loop as two spaces, and the loop keeps
it (`LabelExample`).

The source spells the spacing attribute as the two characters U+00C3 U+2026:
the UTF-8 bytes of "Å" read as Windows-1252. The model keeps that text
(`Report.SpacingAttribute`).

## Model

| member | source | states |
|---|---|---|
| HumanSize.HumanFilesize | mrchead/mrchead.py:14-19 | The loop returns exactly SizeText(n, suffix). Its invariant: after i divisions the running value is n / 1024^i, and no earlier prefix fitted. |
| HumanSize.PrefixIndex | mrchead/mrchead.py:15-16 | The chosen index is at most 8. Below 8 the magnitude fits under 1024 after k divisions, and it fits at no earlier index. |
| HumanSize.PrefixIndexIsFirstFit | mrchead/mrchead.py:15-18 | The index is k exactly when k ≤ 8, \|n\| < 1024^(k+1) (for k < 8) and \|n\| ≥ 1024^k (for k > 0). Both directions are proved. |
| HumanSize.ScaledFits | mrchead/mrchead.py:16 | The loop's float test abs(num) < 1024 after k divisions is the integer question \|n\| < 1024^(k+1). |
| HumanSize.ScaledIsQuotient | mrchead/mrchead.py:15-18 | The value shown at index k is n / 1024^k; for the fallback this is n / 1024^8. |
| HumanSize.ScaledBounds | mrchead/mrchead.py:15-18 | The shown value has magnitude below 1024 inside the loop. It is at least 1 whenever a prefix other than "" is chosen, the fallback included. |
| HumanSize.PrefixIndexMonotone | mrchead/mrchead.py:15-18 | For non-negative counts, a ≤ b gives a prefix index for a no larger than the one for b. |
| HumanSize.PrefixIndexSymmetric | mrchead/mrchead.py:16 | n and -n get the same prefix: only abs(num) is tested. |
| HumanSize.TextNegated | mrchead/mrchead.py:16-19 | A negative count is shown as "-" followed by the text of its magnitude. |
| HumanSize.PadNeverApplies | mrchead/mrchead.py:17 | The width 3 of `3.1f` never pads, because one-decimal text is at least 3 characters long. |
| HumanSize.TextEnding | mrchead/mrchead.py:14-19 | Inside the loop the text is value, space, prefix, suffix. On the fallback it is value, "Yi", suffix, with no space. The text always ends with the suffix. |
| HumanSize.ShownTenthsAtMost10240 | mrchead/mrchead.py:16-17 | Inside the loop the rounded value never exceeds 1024.0. |
| HumanSize.TextZero | mrchead/mrchead.py:14-17 | 0 bytes gives "0.0 B". |
| HumanSize.TextLargestPlainBytes | mrchead/mrchead.py:14-17 | 1023 bytes gives "1023.0 B". |
| HumanSize.TextOneKibi | mrchead/mrchead.py:14-18 | 1024 bytes gives "1.0 KiB". |
| HumanSize.TextKibiAndHalf | mrchead/mrchead.py:14-18 | 1536 bytes gives "1.5 KiB". |
| HumanSize.TextOneMebi | mrchead/mrchead.py:14-18 | 1048576 bytes gives "1.0 MiB". |
| HumanSize.TextJustBelowMebi | mrchead/mrchead.py:14-18 | 1048575 bytes stays in KiB and rounds to "1024.0 KiB". |
| HumanSize.TextTieRoundsToEven | mrchead/mrchead.py:17 | 1280 bytes (1.25 KiB) is shown as "1.2 KiB": a tie rounds to the even tenth. |
| HumanSize.TextFallback | mrchead/mrchead.py:15-19 | 1024^8 bytes uses up all eight prefixes and gives "1.0YiB". |
| Format.RoundHalfEven | mrchead/mrchead.py:17 | The result is within 0.5 of the value. A value exactly half-way rounds to the even integer. |
| Format.Fixed1Accurate | mrchead/mrchead.py:17 | Reading the one-decimal text back gives a number within 0.05 of the value. |
| Format.Fixed1Exact | mrchead/mrchead.py:17 | A non-negative value that is a whole number of tenths is shown exactly. |
| Format.Fixed1Negated | mrchead/mrchead.py:17 | A negative value is shown as "-" followed by the text of its magnitude. |
| Format.PadLeft | mrchead/mrchead.py:35 | The result's length is max(width, \|s\|). It ends with s, everything before s is spaces, and s is never truncated. |
| Format.IntToStringRoundTrip | mrchead/mrchead.py:35 | The decimal text of an integer reads back as that integer. |
| ImageShape.Field | mrchead/mrchead.py:35 | A `{:5d}` field is max(5, digits) wide. It ends with the integer's text and is spaces before it. |
| ImageShape.ShapeTokens | mrchead/mrchead.py:35 | The shape text splits on spaces into exactly the texts of nx, ny and nz, in order. |
| ImageShape.ShapeRoundTrip | mrchead/mrchead.py:35 | Reading the shape text back gives exactly (nx, ny, nz). |
| ImageShape.ShapeLayout | mrchead/mrchead.py:35 | The text is the three fields separated by single spaces. It is 17 characters when every extent fits in 5. |
| ImageShape.ShapeExamples | mrchead/mrchead.py:35 | (10,10,10) gives "   10    10    10" and (128,256,64) gives "  128   256    64". A wide (123456,-1,0) is not truncated. |
| Labels.BuildLabelTree | mrchead/mrchead.py:44-47 | The loop builds the root "\|" whose children are NonEmptyRows(rows). |
| Labels.NonEmptyRowsMembers | mrchead/mrchead.py:45-47 | A row is a child exactly when it is a header row of length greater than 0. |
| Labels.NonEmptyRowsAppend | mrchead/mrchead.py:45-47 | Filtering a concatenation filters each part, so no placeholder marks a dropped row. |
| Labels.NonEmptyRowsCount | mrchead/mrchead.py:45-47 | The number of children is the number of rows minus the empty ones, and every child is non-empty. |
| Labels.NonEmptyRowsOrdered | mrchead/mrchead.py:45-47 | The i-th child is the header row at the i-th kept position. |
| Labels.KeptPositionsIncreasing | mrchead/mrchead.py:45-47 | Kept positions strictly increase, so children keep the header's order. |
| Labels.KeptPositionsExact | mrchead/mrchead.py:45-47 | The kept positions are exactly the positions of non-empty rows. |
| Labels.NonEmptyRowsIdempotent | mrchead/mrchead.py:45-47 | Filtering the children again changes nothing. |
| Labels.LabelExample | mrchead/mrchead.py:45-47 | [first, [], two spaces, second] gives [first, two spaces, second]. |
| Report.TableRows | mrchead/mrchead.py:38-40 | Always three rows, in order: "size on disk", "image shape: nx \| ny \| nz", then the spacing attribute with the spacing text. |
| Report.Mrchead | mrchead/mrchead.py:23-48 | The command body builds exactly ReportOf: the title, the three rows and the label tree. |
| Report.ReportShowsHeader | mrchead/mrchead.py:35-47 | The shape row reads back as the header's (nx, ny, nz), and the size row ends with "B". The tree holds exactly the non-empty label rows. |
| Report.ReportExample | mrchead/mrchead.py:38-39 | A 1048576-byte file with a 10 x 10 x 10 image shows ("size on disk", "1.0 MiB") and ("image shape: nx \| ny \| nz", "   10    10    10"). |

## Left out

- Opening the file with `mrcfile.open(..., header_only=True)` and its `with` block (mrchead/mrchead.py:25-27). This is a foreign binary decoder plus file I/O, so the decoded header, the voxel size and the label rows are inputs.
- `file.stat().st_size` (mrchead/mrchead.py:28) is a filesystem query. The byte count is a `nat` parameter.
- The voxel-size text `{:.3f}` (mrchead/mrchead.py:36) is floating-point formatting of arbitrary floats. It is passed in as a string parameter (`spacingText`).
- `row.decode('utf-8')` (mrchead/mrchead.py:47) is not modelled. Label rows stay raw bytes (`seq<byte>`) and the children are those bytes.
- Trimming of trailing NUL bytes is done inside the header decoder, so the model takes rows as the decoder hands them over.
- The `rich` table and tree rendering, styling, justification and `print`, and the `typer` command registration and entry point (mrchead/mrchead.py:11, 22, 30-33, 42, 48, 51-52) are UI and foreign libraries.
- HumanSize.HumanFilesize: the running value is an exact rational, not a 64-bit float. For |n| ≥ 2^53, Python first rounds n to a float, and that rounding is not modelled.
- Format.Fixed1: matches Python's `.1f` for values that are exact in binary, which every n / 1024^k with |n| < 2^53 is. The shortest-repr and rounding of arbitrary floats are not modelled.
