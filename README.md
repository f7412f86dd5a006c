# elf-plotter: a Dafny model of the byte-image layout of `plot-elf.py`

`plot-elf.py` draws one or more ELF object files as images. Each byte is one
pixel. The ELF header, every section, one program-header entry and one
section-header entry are parts of the file. Each part of positive length is
tinted with a colour from a palette of one colour per part, chosen by
stepping through the palette by a fixed step. As written, the step can make
two parts share a colour (20 parts), and the step search never returns
exactly when `StepTestPasses` is false (its first test fails), for example
for 1 to 6, 8, 12, 14 or 30 parts. Padding bytes are shown black.
This project models the integer part of that pipeline and proves what it promises:

- `primes`, trial-division factorisation (`factorisation.dfy`);
- `get_optimal_color_division`, the step through the palette, as written and
  corrected (`color_step.dfy`);
- `get_max_length`, `pad_array` and the padding loop of `main`, which bring
  all files to one length (`padding.dfy`);
- the part list that `colorize_data` rebuilds from the ELF header fields, and
  its zero-length filter (`parts.dfy`);
- the colouring of one file's buffer in place, and the loop over all files
  (`colorize.dfy`);
- the width/height/truncate/reshape arithmetic of `plot_elf_files`
  (`shape.dfy`);
- `main`'s data path, padding then colouring (`pipeline.dfy`).

`bytes.dfy` defines the `byte` type.

The header fields are those of the "ELF Header" section of the System V
ABI (elf(5)): `e_ehsize`, `e_phoff`, `e_phentsize`, `e_shoff`,
`e_shentsize`. The ELF reader and the file contents are inputs to the model.
Colours are palette indices. Each file builds its own palette from its own
part count. The multiply-and-truncate of a pixel by colour `j` of the
`n`-colour palette is a function parameter, `PaletteTint`. `Tint` is one
file's palette, `FilePalette(tint, n)`.

In the code, a part's colour depends on its position in its own file's part
list.

## Model

| member | source | states |
|---|---|---|
| Factorisation.Cofactor | plot-elf.py:84-86 | what the inner loop leaves of `n` is between 1 and `n` and no longer divisible by `d` |
| Factorisation.PrimeFactors | plot-elf.py:75-90 | the nested loops of `primes` compute exactly the trial-division list `Primes(n)` |
| Factorisation.OuterStep | plot-elf.py:83 | while `d*d <= n`, `d < n` and trial division from `d` is the inner loop's pending list |
| Factorisation.InnerStep | plot-elf.py:84-86 | one inner pass appends `d`, strictly shrinks `n`, and leaves the whole list unchanged |
| Factorisation.InnerDone | plot-elf.py:84-87 | once `d` no longer divides `n`, what is pending is trial division from `d + 1` |
| Factorisation.CofactorSplits | plot-elf.py:84-86 | the inner loop loses nothing: `n` is `d` to the number of appended copies times what is left |
| Factorisation.CofactorNoDivisor | plot-elf.py:83-87 | after the inner loop for `d`, no divisor from 2 to `d` is left in `n` |
| Factorisation.DivisorReachedIsPrime | plot-elf.py:84-85 | a `d` that the inner loop appends is prime |
| Factorisation.RemainderIsPrime | plot-elf.py:88-89 | the remainder appended after the outer loop is prime and at least the last `d` |
| Factorisation.TrialDivisionSound | plot-elf.py:81-90 | from any loop state, the rest of the list is ascending primes at least `d` whose product is the current `n` |
| Factorisation.PrimesCorrect | plot-elf.py:75-90 | for n >= 2 `primes(n)` is ascending, all prime, with product n; for n <= 1 it is empty |
| ColorStep.Candidate | plot-elf.py:102 | `int((n-1)/3)` truncates toward zero: 0 for n = 0, otherwise the c with 3c <= n-1 < 3c+3 |
| ColorStep.OptimalColorDivision | plot-elf.py:93-106 | when the call returns: -1 for n = 0; otherwise the candidate, below n, with a prime factor n lacks; `n-1` exactly when the candidate is at least n |
| ColorStep.SmallCountsHang | plot-elf.py:102-105 | for 1 to 6 colours the first test fails, so the loop never ends |
| ColorStep.TwelveHangs | plot-elf.py:102-105 | for 12 colours the first test fails, so the loop never ends |
| ColorStep.OtherCountsHang | plot-elf.py:102-105 | for 8, 14 and 30 colours the first test fails too, so the loop never ends |
| ColorStep.TwentyRepeatsColors | plot-elf.py:96-105 | for 20 colours the call returns 6, gcd(6, 20) = 2, and parts 0 and 10 get the same palette index, against the docstring |
| ColorStep.PaletteIndex | plot-elf.py:151 | the palette index `(i * division) % num_parts` lies in `[0, num_parts)` |
| ColorStep.CoprimePairDiffers | plot-elf.py:151 | two different parts get different indices when the step is coprime with the part count |
| ColorStep.CoprimeStepNeverRepeats | plot-elf.py:96-98 | the docstring's promise holds for every step coprime with the part count: no index repeats |
| ColorStep.SharedFactorRepeats | plot-elf.py:96-98 | conversely, a step that shares a factor with the part count repeats an index |
| ColorStep.CommonFactorRepeats | plot-elf.py:151 | for a common divisor g >= 2 of step and part count, parts 0 and n / g get the same index |
| ColorStep.ConsecutiveCoprime | plot-elf.py:93-106 | `n-1` is always coprime with n, so the corrected search, which tries steps up to `n-1`, always finds one |
| ColorStep.CoprimeColorDivision | plot-elf.py:93-106 | the corrected step always returns: -1 for n = 0; otherwise the least step from the candidate up that is coprime with n, and its indices never repeat |
| Padding.MaxLength | plot-elf.py:49-60 | the running maximum is at least every length and equal to one of them, or 0 when there are none |
| Padding.MaxLengthOrderFree | plot-elf.py:49-60 | the maximum does not depend on the order of the inputs |
| Padding.PadArray | plot-elf.py:63-72 | a fresh array of the requested length: the input first, zeros after |
| Padding.EqualiseLengths | plot-elf.py:203-206 | the maximum is at least every file's length and is one of them (0 with no files); every file is replaced by its copy padded with zeros to it |
| Padding.PadAll | plot-elf.py:205-206 | after the loop every file's array has the common length and holds its bytes followed by zeros |
| Parts.AllPartsLayout | plot-elf.py:129-138 | `Ehdr` at 0 with `e_ehsize` bytes, one part per section in order, each starting where the previous ends, then `Phdr` and `Shdr` at their header offsets and entry sizes |
| Parts.SectionPartAt | plot-elf.py:132-135 | section `k` is part `k + 1`, at `e_ehsize` plus the sizes of the sections before it, right after part `k` |
| Parts.BuildParts | plot-elf.py:129-140 | the appending loop and the zip build exactly the part list `AllParts` |
| Parts.Zip | plot-elf.py:140 | the zipped list has one part per position, made of the three lists' entries there |
| Parts.KeepNonEmpty | plot-elf.py:141 | the filter is no longer than its input and every kept part has positive length |
| Parts.KeepNonEmptyMembers | plot-elf.py:141 | a part survives the filter exactly when it was in the list with positive length |
| Parts.KeepNonEmptyKeepsOrder | plot-elf.py:141 | the surviving parts keep their relative order |
| Parts.KeepNonEmptySameTotal | plot-elf.py:141 | dropping zero-length parts does not change the total length |
| Parts.SectionPartsTotal | plot-elf.py:132-135 | the section parts together are as long as the sections' data |
| Parts.PartsTotalLength | plot-elf.py:129-141 | the surviving parts add up to `e_ehsize` + all section sizes + `e_phentsize` + `e_shentsize` |
| Colorize.UncoveredKeepsPixel | plot-elf.py:150-152 | a position outside every part keeps its pixel |
| Colorize.FixedPixelKept | plot-elf.py:150-152 | a pixel that every palette colour leaves unchanged stays unchanged, however many parts cover it |
| Colorize.CoveredOnceTinted | plot-elf.py:150-152 | a position inside exactly one part is tinted once, with that part's colour |
| Colorize.Replicate | plot-elf.py:127 | every byte becomes a grey pixel, the same value in all three channels |
| Colorize.Colorize | plot-elf.py:147-154 | the legend lists the part names in order and index `(i*division) % num_parts` per part; each pixel becomes its old value with the covering parts applied in order, the slice cut off at the buffer end |
| Colorize.Names | plot-elf.py:154 | the legend names are the part names in order |
| Colorize.ColorizeFile | plot-elf.py:124-157 | one file, when the step search returns: the buffer is as long as the bytes; the legend is the filtered part names, part `i` with index `(i * step) % n` for the step `int((n-1)/3)` that the search returns; every pixel is its grey byte with the parts applied, tinted from this file's `n`-colour palette; positions outside all parts stay grey |
| Colorize.FileColorsDistinct | plot-elf.py:96-98 | as written, a file's legend indices are pairwise different exactly when it has no parts or the step is coprime with the part count |
| Colorize.ColorizeFileCoprime | plot-elf.py:124-157 | one file with the corrected step: always returns; the step is -1 for no parts, otherwise the least step from `int((n-1)/3)` up, below n, that is coprime with n; colours as `ColorizeFile` does with that step, and the legend indices are pairwise different |
| Colorize.AllColorizedExtend | plot-elf.py:155-157 | adding one file's results to the dictionaries keeps every other file's entry |
| Colorize.ColorizeAll | plot-elf.py:121-158 | when the step search returns for every file: the three result dictionaries have exactly the input's files, and each file's entry is its colouring as `ColorizeFile` states |
| Shape.Height | plot-elf.py:177 | `h = len / w` is the largest h with `w*h <= len`: `w*h <= len < w*(h+1)` |
| Shape.Reshape | plot-elf.py:179 | reshaping gives `h` rows of `w` elements |
| Shape.ReshapeAt | plot-elf.py:179 | row r, column c of the reshaped buffer is element `r*w + c` |
| Shape.FlattenReshape | plot-elf.py:179 | reading the rows back in order gives the buffer: nothing lost or reordered |
| Shape.ShapeImage | plot-elf.py:177-179 | the image has `len / w` rows of `w` pixels that together are the first `w*h` pixels of the buffer |
| Shape.ShapeImageAt | plot-elf.py:177-179 | image pixel (r, c) is buffer pixel `r*w + c`, which lies before the cut |
| Pipeline.Prepare | plot-elf.py:203-210 | when the step search returns for every file: after padding and colouring, every file has an image of the longest file's length, coloured from its bytes followed by zeros |
| Pipeline.PaddingStaysBlack | plot-elf.py:70-71 | every padding byte is shown black, also where a part covers it, given that tinting black with any palette colour gives black |

## Left out

- Reading files and parsing ELF with pyelftools (`load_elf_files`, plot-elf.py:28-46): this is I/O and a foreign library. Header fields and section names and sizes are the inputs of `Parts.ElfDirectory`.
- The command-line checks of `main` (plot-elf.py:191-198): these are I/O and process exit.
- The palette (`cm.rainbow` over evenly spaced points, plot-elf.py:144-145) and the legend's `Line2D` objects (plot-elf.py:153): these are floating point and matplotlib. Colours are palette indices.
- The per-channel multiply by a float colour and the cast to `uint8` (plot-elf.py:152): this is floating point. It is the parameter `PaletteTint`, given the part count that sizes the file's palette (plot-elf.py:144) and applied to every position of the slice.
- The float square root that picks the row width `w` (plot-elf.py:175-176): `w` is a parameter.
- Shape.Height: requires `w > 0`. The source divides by `w` unchecked, and its formula gives `w = 0` for buffers shorter than 144 bytes, where the division raises.
- Plotting, titles, the `.comment` section decode and window handling (plot-elf.py:170-174, 180-186): these are UI and rendering.
- ColorStep.Candidate: `int((n-1)/3)` goes through floating point. It is exact for the part counts a file can have, and is modelled as exact integer division truncated toward zero.
- ColorStep.OptimalColorDivision: requires `StepTestPasses`, i.e. that the call returns. The call never returns exactly when `StepTestPasses` is false; `SmallCountsHang`, `TwelveHangs` and `OtherCountsHang` give examples.
- Pipeline.PaddingStaysBlack: requires that tinting black with any palette colour gives black. The float multiply and `uint8` cast of plot-elf.py:152 behave so, but the tint is a parameter here.
- Padding.PadArray: requires that the array fits in the requested length. numpy raises on the slice assignment otherwise, and `main` only pads to the maximum length.
- Colorize.ColorizeFile: requires `StepTestPasses` for the file's part count, because the source's step search never returns otherwise (for example `SmallCountsHang`, `TwelveHangs`, `OtherCountsHang`).
- Colorize.ColorizeAll: requires `StepTestPasses` for every file's part count, for the same reason.
- Pipeline.Prepare: requires `StepTestPasses` for every file's part count, for the same reason.
- Colorize.ColorizeAll: visits the files in an unspecified order, not the dictionary's insertion order. Each file is coloured independently, so the results do not depend on the order. The files' bytes are passed as values, since `colorize_data` only reads them.

## Findings

| source | as written | input that shows it | evidently intended | confidence | as-written member | corrected member |
|---|---|---|---|---|---|---|
| plot-elf.py:103-105 | the loop never changes `division`, so a failed first test repeats forever | any part count for which `StepTestPasses` is false, for example 1 to 6, 8, 12, 14 or 30 | try the next step until one passes, ending at `n-1` | not executed | ColorStep.OptimalColorDivision, ColorStep.SmallCountsHang, ColorStep.TwelveHangs, ColorStep.OtherCountsHang | ColorStep.CoprimeColorDivision, Colorize.ColorizeFileCoprime |
| plot-elf.py:104 | the test asks only that the step has a prime factor the part count lacks, which does not make them coprime | 20 parts: step 6 is returned, and parts 0 and 10 both get index 0 | a step coprime with the part count, so colours never repeat (plot-elf.py:96-98) | not executed | ColorStep.TwentyRepeatsColors, ColorStep.SharedFactorRepeats, Colorize.ColorizeFile | ColorStep.CoprimeColorDivision, ColorStep.CoprimeStepNeverRepeats, Colorize.ColorizeFileCoprime |
