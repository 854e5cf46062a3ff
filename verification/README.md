# Laplacian edge detector: a verified model

`edge_detector.c` reads binary PPM ("P6") images named on the command line.
It runs a 3 x 3 Laplacian edge-detection filter over each image and writes
the result to `laplacian<k>.ppm`. Each image is filtered by
`LAPLACIAN_THREADS` (4) workers, and each worker owns a band of rows.

This project models the sequential core of that program in Dafny and proves
what the program promises about it:

- `pixels.dfy` (module `Pixels`): bytes, RGB pixels, and the saturating clamp
  of `truncate_values`.
- `convolution.dfy` (module `Convolution`): the kernel, the toroidal
  wrap-around of neighbour coordinates, and the per-pixel formula. It also
  holds the slice worker `compute_laplacian_threadfn`, a method over arrays
  that keeps the nested loops of the C function.
- `partition.dfy` (module `Partition`): how `apply_filters` splits the rows
  into slices. It proves that the slices tile the image. It also proves that
  running the workers one after another, in any order, gives the filtered
  image.
- `ppm.dfy` (module `Ppm`): the P6 codec of `write_image` and `read_image`
  over in-memory byte sequences. This covers the tag check, `#` comment
  lines, the width and height, the maximum colour value 255, and the raster
  of 3-byte pixels.
- `naming.dfy` (module `Naming`): the argument loop of `main`. It decides
  which arguments are images and names each output file.
- `decimal.dfy` (module `Decimal`): decimal numerals, as `%lu`, `%d` and
  `laplacian%d.ppm` print them.

Threads are modelled as sequential calls. The workers write disjoint rows of
the result buffer and only read the source image, so the order does not
matter. `Partition.RunSlicesOrderIrrelevant` proves this.

## Model

| member | source | states |
|---|---|---|
| Pixels.Clamp | edge_detector.c:61-80 | The result lies in [0, 255]. A value already in range is unchanged, a negative value becomes 0, and a value above 255 becomes 255. |
| Pixels.TruncateValues | edge_detector.c:61-80 | Each of the three channels is clamped on its own into [0, 255]. A channel already in range is left unchanged. |
| Convolution.KernelIsLaplacian | edge_detector.c:95-96 | The kernel used by the loops is the matrix {{-1,-1,-1},{-1,8,-1},{-1,-1,-1}}, entry by entry. |
| Convolution.WeightIsKernel | edge_detector.c:95-96 | Kernel cell `3 * fy + fx`, in the row-by-row order of the two filter loops, carries the matrix entry of filter row fy and filter column fx. |
| Convolution.Wrap | edge_detector.c:127-132 | The wrapped neighbour coordinate `(c - 1 + off + n) % n` is always inside the axis. |
| Convolution.WrapNeighbours | edge_detector.c:127-132 | Offset 1 is the pixel itself. Offset 0 is the previous pixel, or the last one when c = 0. Offset 2 is the next pixel, or the first one when c = n - 1. |
| Convolution.RowMajor | edge_detector.c:134 | `y * w + x` lies below `w * h`, and dividing by w gives back y and x. |
| Convolution.SampleIndex | edge_detector.c:127-134 | Every sample index read by the filter lies inside the image, whatever its size, 1 x 1 included. |
| Convolution.SampleIndexAt | edge_detector.c:127-134 | The coordinate arithmetic for filter cell (fy, fx) reads the sample of kernel cell `3 * fy + fx`. |
| Convolution.Conv | edge_detector.c:120-141 | Definition of one channel's accumulator after the first n kernel cells. Its meaning is given by ConvStep, ConvBound and ResponseIsLaplacian. |
| Convolution.ConvBound | edge_detector.c:120-141 | Every partial sum of a channel, after any number of kernel cells, lies in [-2040, 2040]. AccumulateRow and Convolve keep each accumulator equal to such a partial sum, so no value an `int` accumulator holds can overflow. |
| Convolution.ConvPartialBound | edge_detector.c:136-141 | The exact range of the partial sum after n cells: at least -255 per negative cell visited, and at most 0 before the centre cell and 2040 after it. |
| Convolution.Response | edge_detector.c:120-143 | Definition of a channel's full sum over the nine cells. Its meaning is given by ResponseIsLaplacian. |
| Convolution.ResponseIsLaplacian | edge_detector.c:120-143 | A channel's sum is 8 times the centre sample minus its eight wrapped neighbours, and the final sum lies in [-2040, 2040]. ConvBound bounds every intermediate value. |
| Convolution.UniformResponse | edge_detector.c:95-96 | The kernel weights sum to zero, so a one-colour image has response 0 in every channel. |
| Convolution.UniformIsBlack | edge_detector.c:120-154 | A one-colour image filters to an all-black image. |
| Convolution.OnePixelIsBlack | edge_detector.c:127-134 | A 1 x 1 image is its own neighbourhood and filters to one black pixel. |
| Convolution.FilteredPixel | edge_detector.c:144-154 | Definition of the output pixel at (x, y): the clamped responses of its three channels. Its meaning is given by FilterImageAt and ComputeSlice. |
| Convolution.FilterImage | edge_detector.c:114-154 | The filtered image has w * h pixels. Its contents are given by FilterImageAt, and PartitionFilters shows the workers together produce it. |
| Convolution.FilterImageAt | edge_detector.c:148-154 | The filtered image holds, at `y * w + x`, the clamped response of each channel at (x, y). |
| Convolution.PaintRange | edge_detector.c:148-154 | The result buffer after the indices [lo, hi) are written with their filtered pixels keeps the length w * h. PaintRangeRows and the worker contracts give its contents. |
| Convolution.PaintRangeRows | edge_detector.c:114-154 | Writing the indices of rows [start, end) puts at `y * w + x` the filtered pixel (x, y) of each of those rows. |
| Convolution.PaintRangeCompose | edge_detector.c:202-208 | Two workers writing [lo, mid) and then [mid, hi) write [lo, hi). |
| Convolution.PaintAllIsFilter | edge_detector.c:187-208 | Writing every index gives the filtered image, whatever the buffer held before. |
| Convolution.ConvStep | edge_detector.c:127-141 | For filter cell (fy, fx), the coordinate arithmetic of the loop gives an index inside the image. Each channel's accumulator grows by that sample times the kernel entry. |
| Convolution.AccumulateRow | edge_detector.c:124-142 | The innermost loop adds the three cells of filter row fy to the red, green and blue sums. Each sum, before, during and after the loop, is a partial sum bounded by ConvBound, and ends in [-2040, 2040]. |
| Convolution.Convolve | edge_detector.c:120-143 | After the two filter loops, each accumulator equals that channel's filter response at (x, y). Every accumulator stays in [-2040, 2040] throughout. |
| Convolution.ComputeSlice | edge_detector.c:93-159 | The worker writes exactly the indices `y * w + x` of rows [start, start + size). Each such pixel gets its clamped response (RowsFiltered). Every other pixel of the result is unchanged, and the source image is unchanged. |
| Partition.SliceOf | edge_detector.c:187-200 | Slice i starts at `i * (h / T)` and has size `h / T`. The last slice has size `h - (T - 1) * (h / T)`. Every slice ends at or before h. |
| Partition.Slices | edge_detector.c:187-200 | There is one slice per worker, T in all. Slice i is SliceOf(h, T, i), and PartitionContiguous, PartitionDisjoint and PartitionCovers prove that they tile the rows. |
| Partition.PlanSlices | edge_detector.c:189-200 | The parameter loop produces exactly the slices `Slices(h, T)`, in worker order. |
| Partition.PartitionContiguous | edge_detector.c:187-200 | The first slice starts at row 0, each slice ends where the next one starts, and the last slice ends at h. |
| Partition.PartitionDisjoint | edge_detector.c:187-200 | A lower-numbered slice ends at or before the start of any higher-numbered slice, so no two slices share a row. |
| Partition.SliceBounds | edge_detector.c:194-199 | The bounds of slice i in closed form. |
| Partition.Owner | edge_detector.c:187-200 | The worker that owns a row is a valid worker number, below T. OwnerCovers and PartitionCovers prove it owns the row. |
| Partition.OwnerCovers | edge_detector.c:187-200 | Every row below h lies in the slice of its owner worker. |
| Partition.SliceUnique | edge_detector.c:187-200 | A row that lies in two slices lies below h, and the two slices are the same. |
| Partition.PartitionCovers | edge_detector.c:187-200 | A row lies in some slice if and only if it is below h, and then only in its owner's slice. |
| Partition.FewRows | edge_detector.c:194-199 | When h < T, every worker but the last gets an empty slice, and the last worker gets all the rows. |
| Partition.RunSlices | edge_detector.c:202-208 | Running the workers of a list of slices one after another keeps a buffer of w * h pixels. RunSlicesAt gives its contents. |
| Partition.RunSlicesAt | edge_detector.c:202-208 | After the workers run, a pixel covered by some slice holds its filtered value, and any other pixel keeps its old value. |
| Partition.RunSlicesOrderIrrelevant | edge_detector.c:202-208 | Running the same workers in any order gives the same result buffer. |
| Partition.RunContiguous | edge_detector.c:202-208 | Workers for end-to-end slices, starting at row 0, together paint exactly the rows up to the end of the last slice. |
| Partition.PartitionFilters | edge_detector.c:187-208 | For any number of workers T >= 1, h < T included, running all slices gives the filtered image whatever the buffer held before. |
| Partition.RunOneMore | edge_detector.c:202-208 | Running one more worker after the first i paints that worker's rows over the buffer the first i left. |
| Partition.RunWorker | edge_detector.c:202-208 | One worker, started on compute_laplacian_threadfn and joined, leaves the buffer painted at exactly the indices of its slice's rows. |
| Partition.ApplyFilters | edge_detector.c:168-218 | The freshly allocated result equals the filtered image. |
| Decimal.ValueOfDigits | edge_detector.c:238 | Reading back the printed decimal digits of n gives n. |
| Decimal.Digits | edge_detector.c:238 | The decimal digits of n: at least one, each below 10, with no leading zero. |
| Decimal.DecimalString | edge_detector.c:408-409 | The `%d` rendering of n in `laplacian%d.ppm`: one character per digit, each between '0' and '9'. |
| Ppm.SkipSpaceSuffix | edge_detector.c:279 | Skipping whitespace drops a prefix made only of whitespace. It stops at a byte that is not whitespace, or at the end. |
| Ppm.ScanWord | edge_detector.c:279 | The word read by `%s` contains no whitespace, and what follows it is empty or starts with whitespace. An empty word is read only at the end of the input. |
| Ppm.ScanNat | edge_detector.c:296 | A number is read if and only if a digit follows the leading whitespace. What follows the number is empty or starts with a non-digit, so the whole digit run is read. |
| Ppm.SkipLine | edge_detector.c:289-291 | Skipping the rest of a comment line fails exactly when no newline is left, and otherwise consumes at least one byte. |
| Ppm.SkipComments | edge_detector.c:287-293 | A successful skip stops at the end of the input or at a byte other than '#'. |
| Ppm.SkipCommentsLoop | edge_detector.c:286-293 | The byte-by-byte comment loop computes the comment skip `SkipComments`. That skip refuses a comment with no newline before the end. |
| Ppm.CommentEnds | edge_detector.c:288-291 | A comment ends at a newline, after which skipping goes on, or at the end of the input, where it is refused. |
| Ppm.SkipCommentBlock | edge_detector.c:286-293 | Any number of complete comment lines is skipped. |
| Ppm.ReadHeader | edge_detector.c:277-305 | The header reader fails only with BadFormat, BadHeader or BadMaxValue, never Truncated. ReadSizeLines, RejectsTag, RejectsMaxValue and UnterminatedCommentRejected give its results. |
| Ppm.ReadFields | edge_detector.c:296-305 | Reading the width, height and maximum colour value never fails with Truncated. ReadSizeFields gives its result. |
| Ppm.ReadMaxValue | edge_detector.c:299-305 | Reading the maximum colour value never fails with Truncated. RejectsMaxValue gives its refusals. |
| Ppm.Unpack | edge_detector.c:316-323 | A raster of 3n bytes is read as n pixels. PackUnpack and UnpackPack show it is the inverse of Pack. |
| Ppm.ReadPayload | edge_detector.c:316-323 | Reading fails with Truncated exactly when fewer than `3 * w * h` raster bytes remain. Otherwise it yields w * h pixels, and bytes after the raster are ignored. |
| Ppm.SkipSeparator | edge_detector.c:300 | The corrected separator consumes exactly one whitespace byte when one comes next, and nothing otherwise. |
| Ppm.Decode | edge_detector.c:263-329 | A successful decode yields exactly width * height pixels. It succeeds exactly when the header is accepted and enough raster bytes follow the one separator byte. |
| Ppm.DecodeAsWritten | edge_detector.c:263-329 | The decoder with `"%d\n"` as written after the maximum colour value. A success yields width * height pixels, and it succeeds exactly when the header is accepted and enough raster bytes remain after all leading whitespace. |
| Ppm.Encode | edge_detector.c:237-242 | The output starts with "P6\n", and its length is the header length plus `3 * w * h`. |
| Ppm.Numeral | edge_detector.c:238 | The `%lu` and `%d` rendering of n as bytes: at least one byte, each an ASCII digit. NumeralValue gives the digits. |
| Ppm.Pack | edge_detector.c:242 | The raster written by `fwrite` has three bytes per pixel. UnpackPack shows Unpack reads it back. |
| Ppm.NumeralValue | edge_detector.c:238 | The bytes printed for n are its decimal digits, and their value is n. |
| Ppm.UnpackPack | edge_detector.c:242 | Unpacking the raster written for a pixel sequence gives the pixels back. |
| Ppm.PackUnpack | edge_detector.c:317 | Packing the pixels read from a raster gives the raster back. |
| Ppm.ScanNumeral | edge_detector.c:296 | A printed numeral, after any whitespace and before a non-digit, scans as the number it prints. |
| Ppm.ReadSizeLines | edge_detector.c:277-305 | After the tag and any comment lines, the header gives back its width and height. It is accepted exactly when the maximum colour value is 255, and BadMaxValue is returned otherwise. |
| Ppm.ReadPreamble | edge_detector.c:277-293 | After "P6\n" and comment lines, the fields are read from the first byte that is not whitespace or '#'. |
| Ppm.ReadSizeFields | edge_detector.c:296-305 | The size line and the maximum-colour-value line read back as their three numbers. |
| Ppm.HeaderRoundTrip | edge_detector.c:237-239 | Reading the header that write_image prints gives back the width and height it was given. |
| Ppm.DecodePayload | edge_detector.c:296-323 | After a written header, with or without comments, decoding fails with Truncated exactly when the raster is short. Otherwise it takes the first w * h pixels. |
| Ppm.RoundTrip | edge_detector.c:237-323 | Decoding what write_image emits gives back the same image. |
| Ppm.CommentsIgnored | edge_detector.c:286-293 | Comment lines after the tag do not change the decoded image. |
| Ppm.RejectsMaxValue | edge_detector.c:299-305 | In write_image's layout, a header whose maximum colour value is not 255 is refused with BadMaxValue, whatever follows it. |
| Ppm.RejectsTag | edge_detector.c:277-284 | A first word other than "P6" is refused with BadFormat, whatever follows it. |
| Ppm.DecodedHasTag | edge_detector.c:277-284 | Every successful decode starts, after whitespace, with "P6" followed by whitespace or the end of the input. |
| Ppm.UnterminatedCommentRejected | edge_detector.c:288-291 | A comment that runs to the end of the input is refused with BadHeader. |
| Ppm.CommentLoopAsWritten | edge_detector.c:287-293 | The comment loop as written, given fuel steps. When it ends, it stops at the end of the input or at a byte other than '#', having consumed input only. CommentLoopFinishes and CommentLoopHangs relate it to SkipComments. |
| Ppm.CommentLoopFinishes | edge_detector.c:288-293 | Given one step of fuel per byte, the loop as written ends whenever the corrected skip succeeds, and leaves the same bytes. |
| Ppm.CommentLoopHangs | edge_detector.c:288-291 | When the corrected skip refuses the input, the loop as written does not end, whatever the fuel. |
| Ppm.UnterminatedLoopHangs | edge_detector.c:289-291 | Inside a comment with no newline left, the inner loop keeps reading EOF and never returns. |
| Ppm.LineLoop | edge_detector.c:289-291 | With enough fuel, the inner loop as written reaches the byte after the newline, one step per byte consumed. |
| Ppm.ShortFuel | edge_detector.c:289-291 | With fewer steps than bytes up to the newline, the inner loop as written has not yet ended. |
| Ppm.HangingInput | edge_detector.c:288-291 | The input "P6\n#" hangs the loop as written, and the corrected decoder refuses it. |
| Ppm.AsWrittenLosesLeadingSpace | edge_detector.c:300 | As written, `"%d\n"` also consumes a leading whitespace byte of the raster. Any image whose first byte is whitespace then fails with Truncated, although the corrected decoder reads it back. |
| Ppm.SpacePixelExample | edge_detector.c:300 | One concrete 1 x 1 image shows this. |
| Naming.Contains | edge_detector.c:404 | `strstr(arg, ".ppm") != NULL` holds exactly when ".ppm" occurs somewhere in the argument. |
| Naming.Accepted | edge_detector.c:401-424 | Only arguments that contain ".ppm" are accepted. |
| Naming.OutputName | edge_detector.c:408-409 | The output name of job k is "laplacian", then the decimal digits of k, then ".ppm". |
| Naming.PlanJobs | edge_detector.c:386-424 | With no argument, main prints its usage line. Otherwise the k-th accepted argument (1-based) is a job writing `laplacian<k>.ppm`, and there is one job per accepted argument. |
| Naming.AcceptedMembership | edge_detector.c:404-423 | An argument is accepted if and only if it contains ".ppm". |
| Naming.AcceptedAppend | edge_detector.c:401-424 | Accepting the arguments commutes with splitting the argument list. |
| Naming.NumberOfArgument | edge_detector.c:404-417 | An accepted argument gets one more than the number of accepted arguments before it. A rejected argument does not consume a number. |
| Naming.DecimalStringInjective | edge_detector.c:408-409 | Different job numbers print as different decimal strings. |
| Naming.OutputNamesDistinct | edge_detector.c:408-409 | Different jobs write to different output files. |

## Left out

- Threads: `pthread_create` and `pthread_join` are modelled as sequential calls. Their error reports, and the per-image threads of `main`, are not modelled.
- Timing: `gettimeofday`, the `double` elapsed times, the mutex in `update_total_elapsed_time`, and the `printf` of times are not modelled. Note that `main` overwrites the accumulated total with the batch wall time.
- File I/O: `fopen`, `fread`, `fwrite` and `fclose` are replaced by byte sequences. Failures to open a file and the `exit(1)` paths are not modelled.
- Allocation: `malloc` failures are not modelled, and `free` has no counterpart. `ApplyFilters` allocates the result with default contents. In C those contents are uninitialised, but every pixel is overwritten.
- `manage_image_file` passes a possibly NULL image from a failed read straight to `apply_filters`. This is not modelled: the model only filters images that decoded.
- Machine integers: `unsigned long` and `int` are unbounded here. Wrap-around of `w * h`, of `y * w + x`, and the `int` cast of coordinates of images wider or taller than 2^31 are not modelled. Every value the `int` accumulators of `compute_laplacian_threadfn` hold is a partial sum `Conv(..., n)` (the invariants of AccumulateRow and Convolve), and ConvBound puts every partial sum in [-2040, 2040], so they never overflow.
- Ppm.ScanNat: reads unsigned numerals only. The optional sign accepted by `%lu` and `%d`, and numbers beyond `ULONG_MAX` or `INT_MAX`, are not modelled.
- Ppm.ReadHeader: a header field that is missing or malformed gives BadHeader. In C the variable stays uninitialised and behaviour is undefined. An empty or all-whitespace input gives BadFormat, where C compares an uninitialised buffer.
- Ppm.Decode: after the maximum colour value it consumes one whitespace byte, as the Netpbm format prescribes, not every whitespace byte as `"%d\n"` does (see Findings). A non-whitespace byte there consumes nothing, as in C.
- Ppm.Decode: an image with w * h = 0 decodes to an empty pixel sequence. In C, `malloc(0)` may return NULL, which would be reported as an allocation failure.
- `fscanf("%s")` into `char format[3]` can overflow for a long first word. The model compares the whole word with "P6" and so only captures the outcome.
- Output names: `sprintf` into `output_file_name[20]` overflows for job numbers of seven or more digits. This is not modelled.
- Convolution.Convolve: the two inner loops of `compute_laplacian_threadfn` are separate methods here (`Convolve`, `AccumulateRow`), and the kernel entries come from `Kernel`, which `KernelIsLaplacian` proves equal to the matrix.

## Findings

| source | as written | input that shows it | evidently intended | confidence | as-written member | corrected member |
|---|---|---|---|---|---|---|
| edge_detector.c:288-291 | The inner comment loop waits for `'\n'`. At the end of the file `fgetc` returns EOF forever, so a comment with no newline never ends. | the file "P6\n#" | Stop at EOF and refuse the file | not executed; proved of the model | Ppm.CommentLoopHangs | Ppm.UnterminatedCommentRejected |
| edge_detector.c:300 | `"%d\n"` skips every whitespace byte after the maximum colour value. Raster bytes 0x09-0x0D and 0x20 at the start of the raster are swallowed, and the raster then comes up short. | a 1 x 1 image with pixel (0x20, 0x41, 0x42), written by write_image | Consume exactly one whitespace byte, so every written image reads back | not executed; proved of the model | Ppm.AsWrittenLosesLeadingSpace | Ppm.RoundTrip |
