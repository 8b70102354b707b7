# Verified models of OpenImageIO's image codecs

Dafny models of the self-contained codecs and state machines in OpenImageIO's format plug-ins: the GIF writer and
reader, the Maya IFF writer and reader, the Radiance HDR writer and reader, the icon writer and reader, the chunked
block decoder of DDS, and the worker allocator of the build-log viewer. Code that changes things step by step is
modelled by classes and by methods with loops over arrays and files; each of them is proved against a specification
function, and the theorems are about those functions and about whole runs.

- **GIF writer.** LZW with growing code widths, the bit packer with its sub-blocks, quickselect and the k-d tree of the
  palette, the pruned nearest-color search, thresholding, error diffusion in place, and frames that only mark what has
  changed. A viewer that follows GIF89a (sections 15, 16 and 23 and Appendix F) and shares nothing with the writer
  defines what a file shows.
- **GIF reader.** Random access over a stream that only moves forward, with a canvas shared by all frames, and
  interlaced rows.
- **Maya IFF.** Run-length coding, tiles, the reader's guess from the size of a chunk, alignment, vertical flip.
- **Radiance HDR.** Run-length coding of four planes per scanline and the reader's cache of scanline positions.
- **ICO.** Appending a subimage to a file in place, bitmaps with masks, and the reader's buffer.
- **DDS.** Blocks decoded by tasks that each have some block rows.
- **Worker allocator.** Which thread a target of a build log is shown on.

Files are byte sequences. `Bytes` and `Files` hold what all of them share. A buffer of RGBA bytes is an array of pixels
in the GIF writer and a sequence of rows in the IFF and ICO readers; the buffer of DDS is linear, byte by byte.

## Model

| member | source | states |
|---|---|---|
| GifLzwSpec.LzwRoundTrip | src/gif.imageio/gif.h:677-754 | for depths 2 to 8 and every non-empty list of indices that fit the depth, a decoder as in Appendix F of GIF89a turns the data codes into exactly these indices, clearings and the not-yet-defined code included, and ends with the table and the width that the encoder implies |
| GifLzwStream.CodesOfImageFit | src/gif.imageio/gif.h:677-757 | every code of every image, the footer included, fits in the width it is written with, which never exceeds 12 bits |
| GifLzwStream.ImageDecodes | src/gif.imageio/gif.h:677-757 | a decoder that reads bits and stops at the number of pixels recovers every image, whatever follows its bits |
| GifLzwStream.ImageEndsCleanly | src/gif.imageio/gif.h:749-757 | a decoder that reads on to the end-of-information code recovers the image if and only if the data codes do not end on a width barrier |
| GifLzwStream.BarrierExample | src/gif.imageio/gif.h:749-757 | the image 0, 1, 2 of depth 2 ends on a barrier |
| GifBitWriter.GifBitStatus.WriteCode | src/gif.imageio/gif.h:574-616 | a code adds exactly its bits, lowest first, to what has been written; the complete bytes are in sub-blocks of 1 to 255 bytes in the file and in the chunk, and nothing is lost when a chunk goes out |
| GifBitWriter.GifBitStatus.Flush | src/gif.imageio/gif.h:756-758 | afterwards the sub-blocks in the file hold all bits written, followed by fewer than eight zero bits |
| GifBlocks.DeblockBlocks | src/gif.imageio/gif.h:593-601 | framing only: sub-blocks of 1 to 255 bytes and the terminator are taken apart into exactly their bytes and what follows |
| GifFrameWriter.GifWriteLzwImage | src/gif.imageio/gif.h:647-762 | for every non-empty image below 65536 by 65536 whose indices fit the depth, the bytes appended show a viewer exactly this frame: its place, control block, color table and indices, whatever follows |
| GifPartition.GifPartition | src/gif.imageio/gif.h:193-218 | permutes the colors of the range only; the pivot key ends at the returned position with nothing larger before it and nothing smaller behind it, and keys equal to it are shared out between both sides |
| GifPartition.GifPartitionByMedian | src/gif.imageio/gif.h:222-237 | ends; permutes the colors of the range only; nothing before the center is larger than it on the component and nothing behind it is smaller |
| GifPaletteMaker.GifPickChangedPixels | src/gif.imageio/gif.h:360-382 | the first pixels are those that differ from the last frame, in order, and their number is returned |
| GifPalettes.GifSplitPalette | src/gif.imageio/gif.h:240-354 | permutes the colors of its range, touches only its own entries and nodes; these are what median splits make of the pixels: each node splits on the component with the widest range at the right share of them, and each leaf is the darkest, the brightest or the average color of its share; with as many pixels as entries every entry keeps within its pixels and the subtree is a k-d tree |
| GifPaletteMaker.GifMakePalette | src/gif.imageio/gif.h:386-413 | whatever the palette memory holds (split components below 3), the entries and nodes are what median splits make of the changed pixels, or of all of them for dithering; fed with at least 2^depth - 1 pixels every entry but the reserved one keeps within them on each component, and the nodes separate the entries below them |
| GifTree.ClosestExact | src/gif.imageio/gif.h:121-167 | if the nodes keep their promises, the pruned search of any subtree delivers what a linear scan of its entries, the reserved one left out, would, whatever had been found before |
| GifThreshold.NearestColor | src/gif.imageio/gif.h:525-560 | with a complete palette, a pixel that has changed gets an entry other than the reserved one, with the color of that entry, and no entry is nearer |
| GifThreshold.GifThresholdImage | src/gif.imageio/gif.h:525-560 | every pixel of the output is the palettized one, although the output buffer may be the last frame |
| GifDither.GifDitherImage | src/gif.imageio/gif.h:416-522 | for every size, every pixel is what follows from the errors of the pixels before it alone: errors go forward only, except for the share that returns to its own pixel at width 1, a finished pixel stays, and values never fall below zero |
| GifDither.ColorKeptIff | src/gif.imageio/gif.h:475-491 | at width 1, where one share of an error goes back to the pixel that it comes from, the final color survives the narrowing to bytes if and only if on each component the color with that share added still ends in the same byte |
| GifDitherBound.FinalBelow | src/gif.imageio/gif.h:416-522 | for width at least 2 and any palette, values and errors in row y are at most 174080 (y + 1) |
| GifDitherPeak.SoundIff | src/gif.imageio/gif.h:438-514 | for every width and number of pixels: no image, last frame and complete palette make the palette search fail, if and only if the largest value that any pixel can reach, which is computed from the size alone, is nearer to black than the limit of the search at every pixel |
| GifDitherPeak.ModerateIsCalm | src/gif.imageio/gif.h:438-514 | that is so for every width of at least 2 and up to 490 rows |
| GifDitherPeak.TallNotCalm | src/gif.imageio/gif.h:438-514 | and not for width 2 and more than 942 rows |
| GifDitherPeak.DitherSound | src/gif.imageio/gif.h:452-472 | with up to 490 rows it is enough that the palette has its reserved node: every pixel is transparent and shows the last color, or has an entry of the palette and its color |
| GifDitherFails.TallFails | src/gif.imageio/gif.h:240-413 | an image that the writer dithers so: 2 by 17000 pixels, the first sixth red, the next one black, the rest green; every palette of depth 2 that is made from it has no red, and pixels 5652 to 5665 are then transparent but taken for black, on a first frame or after a blue one |
| GifMovieFails.TallMovie | src/gif.imageio/gif.h:784-861 | the whole run: begin, a blue frame, and this image dithered; the file then does not show the image that the writer has kept |
| GifMovie.GifWriter.GifWriteFrame | src/gif.imageio/gif.h:841-861 | adds one frame to the file; the palette is made from the image, and the kept image is the next image palettized or dithered against the last one with it; a viewer in step stays in step without dithering and with dithering at every size for which the search never fails; at any dithered size of width at least 2 it stays in step if and only if this is the first frame or no pixel is lost |
| GifMovie.GifWriter.GifEnd | src/gif.imageio/gif.h:865-878 | the whole file is read by a viewer and shows the frames written; if the writer is in step, exactly the image it kept |
| GifInterlace.DecodeIsStored | src/gif.imageio/gifinput.cpp:201-213 | for every height, the row of a stored line is the one that the four passes of Appendix E give |
| GifInterlace.RowStoredOnce | src/gif.imageio/gifinput.cpp:201-213 | every row has a stored line |
| GifInterlace.LineStoredOnce | src/gif.imageio/gifinput.cpp:201-213 | every stored line has a row, inside the image, and is the only line of that row |
| GifReplay.FrameFills | src/gif.imageio/gifinput.cpp:372-445 | a complete frame, interlaced or not, fills each of its pixels on the canvas from its own line and changes no other pixel |
| GifInput.GIFInput.SeekSubimage | src/gif.imageio/gifinput.cpp:450-522 | after any calls, successful or not, a seek that succeeds leaves the canvas, the disposal method and the spec that a new reader has after drawing all frames up to that one; if closing and opening work it succeeds exactly if such a reader would; a failure behind the argument check leaves no current frame and no spec |
| GifInput.GIFInput.ReadNativeScanline | src/gif.imageio/gifinput.cpp:217-236 | a row that is delivered is the row of that canvas; if closing and opening work there is one exactly if the frames can be drawn and the row is in a canvas that is not empty |
| IffRle.ChannelRoundTrip | src/iff.imageio/iffoutput.cpp:866-943 | for every list of bytes and whatever follows its code, decoding as many bytes yields the list and stops exactly behind the code |
| IffRle.CompressedAtMost | src/iff.imageio/iffoutput.cpp:919-943 | the code of n bytes has at most n + ceil(n / 128) bytes |
| IffRle.CompressedFits | src/iff.imageio/iffoutput.cpp:464-502 | and at most 2 n, the size of the scratch buffer |
| IffRle.CompressedAtLeast | src/iff.imageio/iffinput.cpp:622-634 | and at least n / 64 |
| IffCoder.CompressRleChannel | src/iff.imageio/iffoutput.cpp:866-943 | the encoder on arrays appends exactly the code and stays inside the buffer |
| IffCoder.UncompressRleChannel | src/iff.imageio/iffinput.cpp:1061-1100 | the decoder on arrays writes what the code decodes to, cut off or not, leaves the rest of the output alone and reports the bytes used |
| IffRoundTrip.LastTileReadable | src/iff.imageio/iffoutput.cpp:440-451 | a tile at the end of a file can be read if and only if it was compressed or its plain size is a multiple of four |
| IffRoundTrip.WrittenPlausible | src/iff.imageio/iffinput.cpp:622-634 | no image that the writer accepts, up to 8192 by 8192, is refused as implausible |
| IffRoundTrip.ImageRoundTrip | src/iff.imageio/iffoutput.cpp:398-700 | for 3 or 4 channels of 8 bits, with or without compression: if every tile is readable, reading what was written gives the image |
| IffRoundTrip.RgbaRoundTrip | src/iff.imageio/iffoutput.cpp:398-700 | for 4 channels of 8 bits that holds for every image; which tiles were compressed is found out rightly, and every chunk is consumed exactly |
| IffLastTile.LastDecides | src/iff.imageio/iffoutput.cpp:398-700 | if all tiles before the last one are stored with their true lengths, reading gives the image if and only if the last one is, too, and fails otherwise |
| IffLastTile.RgbBackIff | src/iff.imageio/iffoutput.cpp:398-700 | every image of 3 channels of 8 bits, compressed or not: it comes back if and only if four divides its number of pixels or its last tile was compressed, and otherwise the file cannot be read |
| IffLastTile.OneByOne | src/iff.imageio/iffoutput.cpp:440-451 | an image of one pixel with three channels is written but cannot be read, with and without compression |
| IffWriter.IffOutput.Close | src/iff.imageio/iffoutput.cpp:398-700 | the writer appends exactly the chunks of the flipped image, tile by tile |
| IffReader.IffInput.ReadImg | src/iff.imageio/iffinput.cpp:609-1058 | for any file without depth channel in the header the reader succeeds exactly if the specification does, and then holds its image |
| HdrWriter.WriteBytesRle | src/hdr.imageio/hdroutput.cpp:90-141 | ends, and appends a code that the reader's decoder turns back into the bytes, whatever follows |
| HdrScanline.CodedLine | src/hdr.imageio/hdrinput.cpp:415-476 | for widths 8 to 32767, the marker and any codes of the four planes are read as exactly the pixels, up to the end of the code |
| HdrScanline.FlatLine | src/hdr.imageio/hdroutput.cpp:144-160 | so are scanlines of other widths, written pixel by pixel |
| HdrWriter.WriteScanline | src/hdr.imageio/hdroutput.cpp:144-178 | whatever its width, a scanline is appended in a form that is read back as exactly its pixels |
| HdrCache.AllTrail | src/hdr.imageio/hdrinput.cpp:484-510 | after any calls in any order, failed ones included, offset i is where the attempt to read scanline i starts and the file stands where that for the next scanline does |
| HdrCache.AnyOrder | src/hdr.imageio/hdrinput.cpp:484-510 | a scanline that can be read from the front is delivered whenever it is asked for, whatever was asked before |
| HdrCache.AgreeingIff | src/hdr.imageio/hdrinput.cpp:484-510 | all answers to all sequences of calls agree with reading from the front if and only if no scanline can be read right behind one that cannot |
| HdrFiles.MisleadingFile | src/hdr.imageio/hdrinput.cpp:497-510 | a concrete file: scanline 1 cannot be read from the front, but after a failed request for scanline 0 it is delivered |
| HdrFiles.WrittenInAnyOrder | src/hdr.imageio/hdrinput.cpp:484-510 | any scanlines that were written behind each other are delivered exactly, in whatever order they are asked for |
| HdrReader.HdrInput.ReadNativeScanline | src/hdr.imageio/hdrinput.cpp:400-510 | the reader with its fields and its position does what the specification of a call says, state included |
| IcoWriter.MoveEnd | src/ico.imageio/icooutput.cpp:224-265 | moving the end of a file by sixteen bytes, block by block over itself, gives exactly the old bytes with a gap |
| IcoWriter.AddEntry | src/ico.imageio/icooutput.cpp:206-314 | any file with a directory of at least one entry, wherever its entries point, gets room for one more: everything behind the directory moves on by sixteen bytes, each offset grows by sixteen modulo 2^32, the count by one, and the new entry points to the end |
| IcoAppend.BlobKept | src/ico.imageio/icooutput.cpp:224-285 | every earlier entry keeps its length and points to the same bytes up to the old end of the file, so PNG images, whose length is 0, are kept in full |
| IcoAppend.EarlierImageKept | src/ico.imageio/icooutput.cpp:224-285 | every image that could be read is read as the same image afterwards |
| IcoAppend.IconContains | src/ico.imageio/icooutput.cpp:206-222 | every icon file, with PNG images and palettes as the bytes from their offsets on, counts as a file with some images, so it can be appended to |
| IcoScanlines.IcoOutput.Append | src/ico.imageio/icooutput.cpp:206-360 | from any icon file whose size and count leave room: one more image, its bitmap still zero, and the images before it unharmed |
| IcoScanlines.IcoOutput.WriteScanline | src/ico.imageio/icooutput.cpp:404-500 | a row, whenever it comes, replaces its colors and its mask in the bitmap and nothing else |
| IcoScanlines.IcoOutput.Result | src/ico.imageio/icooutput.cpp:206-500 | whichever rows have been written, the file is an icon with the earlier images and this one; so this holds over any sequence of appends |
| IcoScanlines.IcoOutput.StillGrown | src/ico.imageio/icooutput.cpp:206-500 | and at every moment it is the file that was appended to, grown, so that every entry and image of that file is where it is expected |
| IcoAppend.ContainedBack | src/ico.imageio/icoinput.cpp:332-485 | in such a file every complete image of this writer is read back: four and two channels exactly, the others opaque |
| IcoReadBack.MaskBitIs | src/ico.imageio/icooutput.cpp:470-500 | the bit of a pixel in the mask is set exactly if its alpha is at most 127 |
| IcoReadBack.ImageBack | src/ico.imageio/icoinput.cpp:332-485 | a bitmap with all its rows, anywhere in a file that points to it, is read as its image |
| IcoReader.TruthfulIff | src/ico.imageio/icoinput.cpp:332-518 | over all sequences of requests, every answer about a subimage is an error or a row of it, if and only if its bitmap is not cut off |
| IcoReader.CutOffMisread | src/ico.imageio/icoinput.cpp:502-518 | a concrete file of one pixel without its color: the first request fails, the second one delivers a pixel |
| IcoReader.IcoInput.ReadNativeScanline | src/ico.imageio/icoinput.cpp:502-518 | the reader with its buffer, which has its size before the first byte is read, does what the specification of a request says |
| DdsDecoder.DecodeChunk | src/dds.imageio/ddsinput.cpp:205-299 | a task for some block rows, with its running source and destination offsets and its clipping, writes exactly the blocks of these rows in turn, each from its own bytes |
| DdsDecoder.ChunkWrites | src/dds.imageio/ddsinput.cpp:205-299 | it sets the pixels of its rows to pixel (x % 4, y % 4) of block (x / 4, y / 4) and changes no other pixel |
| DdsDecoder.TasksSplit | src/libutil/thread.cpp:610-642 | for every number of threads, the tasks have every block row exactly once, in whatever order they run |
| DdsDecoder.ChunksApart | src/dds.imageio/ddsinput.cpp:205-215 | two tasks never have the same row of pixels |
| DdsDecoder.DecompressImage | src/dds.imageio/ddsinput.cpp:194-300 | for every number of threads, the tasks that the block rows are split into, run in any order, give the right pixel everywhere, whatever was in the buffer |
| DdsDecoder.AnyInterleaving | src/dds.imageio/ddsinput.cpp:194-300 | so they do if they take turns after each block in any way, and every pixel is written exactly once |
| DdsNormals.ComputeNormalRG | src/dds.imageio/ddsinput.cpp:167-178 | two channels become three in place, and each is read before it is overwritten |
| DdsNormals.ComputeNormalAG | src/dds.imageio/ddsinput.cpp:180-191 | four channels become three in place, and each is read before it is overwritten |
| NinjaWorkers.Threads.Alloc | src/build-scripts/ninjatracing.py:75-82 | for targets in the order of decreasing ends, empty ones included: the first worker that is free takes the target, and there is a new one only if none is |
| NinjaWorkers.Threads.NeverTwoAtOnce | src/build-scripts/ninjatracing.py:75-82 | no two targets of one worker overlap |
| NinjaWorkers.Threads.AsFewAsPossible | src/build-scripts/ninjatracing.py:75-82 | never more targets are alive at once than there are workers, and if no target is empty, at one instant exactly as many |
| NinjaWorkers.NoneBetter | src/build-scripts/ninjatracing.py:75-82 | no way to place the targets, each one before those that its worker already has, needs fewer workers |
| NinjaWorkers.NoneApart | src/build-scripts/ninjatracing.py:75-82 | nor does any way to keep the targets of each worker apart, unless an empty target starts where an earlier one that is not empty ends |
| NinjaWorkers.EmptyInside | src/build-scripts/ninjatracing.py:75-82 | an empty target inside another one takes a second worker although at most one target is ever alive |
| NinjaWorkers.EmptyLast | src/build-scripts/ninjatracing.py:75-82 | an empty target at the end of another one takes a second worker although the two are apart |

## Findings

Seven properties that one would expect do not hold of the code.

- **LZW images that end on a width barrier.** The GIF writer does not widen the code after the last data code, a decoder
  does. A decoder that looks for the end-of-information code misreads exactly the images that end on a barrier
  (`GifLzwStream.ImageEndsCleanly`, `GifLzwStream.BarrierExample`); one that stops at the number of pixels reads all.
- **Tall dithered images.** Errors can grow from row to row until the palette search finds nothing near enough; the
  pixel is then transparent but remembered as black. `GifDitherFails.TallFails` is an image for which this happens with
  the palette made from it, `GifMovieFails.TallMovie` a movie that the viewer then shows wrongly. For which sizes it can
  happen with some complete palette is decided by the size alone (`GifDitherPeak.SoundIff`): a caller can compute the
  values of the worst image before the call. It cannot up to 490 rows (`GifDitherPeak.ModerateIsCalm`). Whatever the
  size, the viewer is out of step after a frame exactly if some pixel was lost so (`GifMovie.GifWriter.GifWriteFrame`).
- **Dithered images of width 1.** One share of an error goes back to the pixel that it comes from, after the search. The
  pixel keeps its color exactly if that does no harm (`GifDither.ColorKeptIff`).
- **IFF images with three channels.** The length in the chunk of a plain tile is aligned, its data is not. Only the last
  tile of an image can have a size that is no multiple of four, and if it has and is not compressed, the file cannot be
  read (`IffLastTile.RgbBackIff`); the smallest such image has one pixel (`IffLastTile.OneByOne`).
- **HDR scanlines behind a failed one.** A failed read records where it stopped as the start of the next scanline, which
  can then be delivered although reading from the front never gets there (`HdrFiles.MisleadingFile`). All answers agree
  exactly if nothing readable stands behind something unreadable (`HdrCache.AgreeingIff`).
- **Icon bitmaps that are cut off.** The first request fails, but it leaves a buffer, and the next one delivers rows
  from it (`IcoReader.CutOffMisread`). All answers are true exactly if the bitmap is complete (`IcoReader.TruthfulIff`).
- **Empty targets in a build log.** A target that ends when it starts can take a worker although nothing else is alive
  (`NinjaWorkers.EmptyInside`), or although it is apart from the target before it (`NinjaWorkers.EmptyLast`).

## Left out

- GifDitherPeak.SoundIff: ranges over all complete palettes. Which of them are made from which images is not
  characterised, and whether an image of a size that is not calm fails at depth 8, which the plug-in always uses
  (gifoutput.cpp:206-231), is open; the image of `GifDitherFails.TallFails` has depth 2.
- GifMovie.GifWriter.GifWriteFrame: at width 1 it says nothing about dithered frames being in step.
- GifPaletteMaker.GifMakePalette: promises a complete palette only if at least 2^depth - 1 pixels feed it, because fewer
  leave parts of it as the memory was; of that memory it is assumed that split components are below 3. On which side a
  pixel with the key of the center goes is left to the partition.
- Frames of 65536 pixels or more in a direction; delays are kept modulo 65536.
- GifFrameWriter.GifWriteLzwImage: depth 1 is not covered; GIF89a has no code widths below 3 bits.
- GIF viewer: interlaced frames and frames without color table of their own, which the writer never makes.
- GIF reader: comments, frame rates and loop counts; the decoding library is a list of frames that may fail. A
  transparent pixel is drawn with alpha 0, as the code does it, although GIF89a would leave the canvas as it is.
- IFF depth tiles, 16-bit channels, whose byte order differs between writer and reader, the header before the tiles, and
  dimensions of 65536, which do not fit the reader's 16-bit row counters.
- HDR conversions between floats and shared exponents, the header, and orientation.
- ICO images with 1, 4 or 8 bits per pixel, PNG images (other than keeping their bytes), and the hot spots of cursors.
- IcoWriter.AddEntry: files whose header counts no entry, for which the code seeks in front of the file, and files that
  grow beyond 2^31 - 1 bytes or 32767 entries.
- IcoReader.IcoInput.ReadNativeScanline: rows beyond the height are a caller's error, because the code does not look.
- DDS headers, cube faces, mip levels and uncompressed formats; decoding one block is an abstract function that yields
  sixteen pixels, and so is the third component of a normal.
- DdsDecoder.AnyInterleaving: tasks take turns after each block; finer interleavings write to different bytes, but a
  memory model of threads is not part of this model.
- NinjaWorkers.Threads.Alloc: targets are given in the order that `read_targets` sorts them into, and none ends before it
  starts.
- Overflow of 32-bit integers, locks, attributes, error texts, and failures of input and output other than the end of a
  file and of opening and closing in the GIF reader.
