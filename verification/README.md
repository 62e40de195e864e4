# Guacamole server: a verified model

This project models the parts of the Guacamole server (version 1.1.0, with its
recording encoder and key log interpreter) whose behaviour spans several calls,
and proves what those parts are for. `dafny verify dfyconfig.toml` checks it.

| file | what it models |
|---|---|
| `Basics.dfy` | minimum and maximum, powers, decimal numerals |
| `Rects.dfy` | rectangle arithmetic: hull, intersection, growth to a block grid, splitting around a hole |
| `Bits.dfy`, `Operators.dfy` | colours as bits; what the transfer functions, blending, masks and the client's operator OVER compute |
| `Pixels.dfy` | the in-place row loops that trim an update to what changed |
| `Updates.dfy` | what a surface remembers of changes not yet sent: a dirty rectangle, a bounded queue, and a flush that sorts, merges, requeues and sends |
| `Clients.dfy` | what the client shows after the instructions sent, pixel by pixel and with the operators they are sent with |
| `Shipping.dfy`, `Calls.dfy` | every call on a surface as a function of the surface and of what has been sent, and what it keeps |
| `Surfaces.dfy` | the surface object with its buffer and loops, proved to compute those functions |
| `Runs.dfy`, `OutOfStep.dfy` | whole runs of calls on two surfaces, and runs after which the client is wrong |
| `Unicode.dfy` | UTF-8 character sizes and counts, and well-formed UTF-8 (sections 3 and 4 of RFC 3629) |
| `Parser.dfy` | the instruction parser: resumable, in place, over a buffer that shifts |
| `Protocol.dfy`, `Grammar.dfy` | writing instructions, agreement between writer and parser, and the language the parser accepts |
| `Base64.dfy`, `Blobs.dfy` | streaming base64 (section 4 of RFC 4648), in-place decoding, and sending data as blobs |
| `CJson.dfy`, `CJsonPrinter.dfy`, `CJsonParser.dfy` | JSON text: how it is read, the printer with its two-pass sizes, the parser |
| `CJsonStrings.dfy`, `CJsonNumbers.dfy`, `CJsonDocuments.dfy` | what strings, numbers and whole texts of RFC 8259 stand for, and that they are read so |
| `Flatten.dfy`, `Placement.dfy` | flattening the layer tree of a display in one linear pass, and where each layer's pixels appear |
| `Timeline.dfy` | resampling syncs to 25 frames per second, and letterboxing |
| `Palettes.dfy` | an open-addressed colour table and indexed PNG rows |
| `Pools.dfy` | integer pools on a linked free list, and stream slots |
| `Paths.dfy` | path normalisation on a scratch buffer, and the truncating string functions |
| `KeyState.dfy` | tracking of modifier keys |
| `Jobs.dfy` | encoder workers sharing a semaphore |

The main results:

- *No change goes missing.* `Runs.Run`: over every run of calls on two surfaces,
  with all sixteen transfer functions, between any two moments each pixel that
  changed or was waiting waits to be sent or was covered by an instruction sent
  since; whatever is thought worth combining and whatever formats are chosen.
- *What the client shows.* After a flush with PNG alone it shows every pixel that
  waited, transparent ones too (`Surfaces.Surface.Flush`). `Calls.FlushKeeps` gives it
  exactly for every pixel and format, and `Clients.ArrivesIff` and `CopyArrivesIff` say
  when it is the local pixel. By
  `Runs.Run` opaque pixels stay in step over every run whose transfers use one of
  their two pixels, and opaque surfaces over every run whose transfers between them
  are repeatable. Beyond that the code goes wrong, and the model says exactly when: a
  transfer between surfaces can be applied twice to a pixel that was waiting
  (`Calls.AcrossKeeps`, by a condition on the surfaces before the call;
  `OutOfStep.XorAcrossWaitingRow` builds a case by public calls), and a copy is sent
  with the operator OVER, as WebP images are, so that a transparent pixel does not
  arrive (`OutOfStep.CopyOfNothing`, `TransparentUnderWebp`).
- *What transfers compute.* `Operators.TransferFollows`: each of the sixteen functions
  is, bit by bit, the Boolean function its opcode names, and the opcode's own number is
  the truth table (`CodeIsTable`).
- *Bytes on the wire.* The parser accepts exactly the language of the protocol
  (`Grammar.ParsesIffSpelled`). Cutting a stream differently never changes what is
  parsed (`ChunksDoNotMatter`, `Session`); writer and parser agree on all well-formed
  UTF-8 (`WellFormedParses`), and beyond that exactly on elements that end on a
  character boundary (`WriterAndParserAgree`); and data sent
  as blobs arrives unchanged after parsing, decoding in place and reassembly
  (`Transmit`).
- *JSON.* Every text of RFC 8259 is read as the tree it stands for
  (`CJsonDocuments.DocIsRead`), escapes as the code points they name and numerals as the
  numbers their places give. What is printed reads back: `CJson.ReadsBack` for the text,
  `PrintThenParse` for the program, with every buffer write inside its precomputed size; and which strings
  take the parser out of its buffers (`CompleteIsDefined`, `CutOffIsUndefined`).
- *One pass equals recursion.* `Flatten.Display.Render`: sorting by depth makes
  the linear pass compute the recursive composition of the layer tree, in which each
  layer's pixels appear at the sum of the offsets above it (`Placement.FrameShows`).
- *No drift.* `Timeline.Encode`: frame count and frame contents depend only on
  the accepted syncs, not on how they were spaced.
- *Refinements of plain lists and sets.* The colour table is the list of distinct
  colours (`BuildPalette`, `Find`), the pool a partition of the values handed out
  (`RunKeeps`) that reuses them in the order they came back (`ReusedInOrder`), the path
  scratch buffer a stack evaluation (`NormalizePath`) that obeys the laws of paths
  (`ParentUndoesName`, `RootHasNoParent`, `DotIsDropped`), the
  key table the set of modifiers held down (`TableTracksModifiers`).

## How the model is made

Objects that the program changes in place are classes with the same fields, and
their methods follow the program's loops; values are datatypes. The network, the
file system and foreign libraries are parameters: a socket is the bytes it still
holds and the sizes it delivers them in, painting is a term that records what was
painted where, the choice between PNG, JPEG and WebP and the estimate what is worth
combining may be any, and the numbers of the program are mathematical integers unless a
width is named.

Where the code differs from its comments, or from what a reader would expect, the
model follows the code:

- The comment on the layer comparator only promises that siblings are adjacent and
  ordered by Z; the code also puts deeper layers first, and that is what the linear
  pass depends on.
- Setting and transferring trim an update to the pixels that changed, but an area of
  a single pixel is kept even when it did not change; drawing does not do this
  (`slack` in `Pixels.Update`).
- The depth limit of path normalisation can never be reached within the size limit
  (`Paths.DepthIsBounded`), nor can the key table become full
  (`KeyState.TableIsShort`).
- A parse error in an encoder worker keeps its semaphore permit
  (`Jobs.RunsAgainIff` says what follows).
- Blending is documented as the operator OVER of Porter and Duff, but the code does not
  divide by 255 (`Operators.SumIsOverIff`).
- A WebP image is not preceded by clearing its area, unlike a PNG with an alpha
  channel, and a copy replaces pixels locally but is sent with the operator OVER.
- Freeing a stream that is closed already puts -1 into the pool
  (`Pools.Client.FreeStream`).
- An instruction of exactly the maximum number of elements is accepted or rejected
  depending on how it arrives (`Parser.LastElementReadInTwoCalls`).

## Model

| member | source | states |
|---|---|---|
| `Rects.Extend` | guacamole-server-1.1.0/src/common/rect.c:30-53 | the result is the hull of both rectangles |
| `Rects.HullIsLeast` | guacamole-server-1.1.0/src/common/rect.c:30-53 | the hull contains both rectangles and lies in every rectangle that does |
| `Rects.Constrain` | guacamole-server-1.1.0/src/common/rect.c:55-78 | the result holds exactly the pixels in both rectangles |
| `Rects.MeetIsIntersection` | guacamole-server-1.1.0/src/common/rect.c:55-78 | the common rectangle has a pixel if and only if both have it |
| `Rects.GridSizeIsNextMultiple` | guacamole-server-1.1.0/src/common/rect.c:80-115 | the grown size is the next multiple of the cell size that is strictly larger |
| `Rects.ExpandToGrid` | guacamole-server-1.1.0/src/common/rect.c:80-172 | a rectangle inside the limits grows to one that contains it, stays inside the limits and, where the limits leave room, has a multiple of the cell size |
| `Rects.Intersects` | guacamole-server-1.1.0/src/common/rect.c:174-190 | 0 exactly when no pixel is common; otherwise 2 exactly when the first rectangle lies within the other, else 1 |
| `Rects.ClipAndSplit` | guacamole-server-1.1.0/src/common/rect.c:192-266 | one call cuts off one strip: strip and rest are disjoint, together they are the old rectangle, the strip misses the hole, and fewer sides stick out |
| `Rects.SplitAround` | guacamole-server-1.1.0/src/common/rect.c:192-266 | repeating the call stops after at most four strips; they are pairwise disjoint and tile the rectangle without the hole, and the rest is their intersection |
| `Operators.TransferFollows` | guacamole-server-1.1.0/src/common/surface.c:703-777 | for all sixteen functions every colour bit of the result is the Boolean function the opcode names, of source bit and destination bit, and the alpha channel is that of source or destination, or opaque for the constant functions |
| `Operators.FollowsIsUnique` | guacamole-server-1.1.0/src/common/surface.c:703-777 | no other colour has these bits and this alpha channel |
| `Operators.CodeIsTable` | guacamole-server-1.1.0/src/libguac/guacamole/protocol-types.h:219-258 | the number of an opcode is the truth table of its function |
| `Operators.BlendedAtEnds` | guacamole-server-1.1.0/src/common/surface.c:907-939 | blending gives the source where that is opaque or the destination transparent, and the destination where the source is transparent |
| `Operators.BlendedPart` | guacamole-server-1.1.0/src/common/surface.c:907-939 | everywhere else each of the four components of the result comes from the same component of both colours and the alpha of the source |
| `Operators.BlendIsClampedSum` | guacamole-server-1.1.0/src/common/surface.c:881-891 | a blended component is source plus destination times the rest of the alpha, or 255 where that is more |
| `Operators.SumIsOverIff` | guacamole-server-1.1.0/src/common/surface.c:881-891 | the comment promises the operator OVER of Porter and Duff; without the missing division a sum that is not clamped is that if and only if the destination component is zero |
| `Operators.BlendStaysOpaque` | guacamole-server-1.1.0/src/common/surface.c:907-939 | blending onto an opaque pixel gives an opaque pixel |
| `Operators.MaskSelects` | guacamole-server-1.1.0/src/common/surface.c:1054-1091 | a fill reaches exactly the pixels where its mask is not wholly transparent |
| `Operators.ColorOfFill` | guacamole-server-1.1.0/src/common/surface.c:1361-1395 | the colour of a fill is opaque and has the components given |
| `Operators.RepeatableOpsAreIdempotent` | guacamole-server-1.1.0/src/common/surface.c:703-777 | for the listed transfer functions, applying them twice with the same source is applying them once |
| `Operators.OtherOpsAreNotIdempotent` | guacamole-server-1.1.0/src/common/surface.c:703-777 | for every other transfer function there is a pixel that a second application changes again |
| `Pixels.TransferRow` | guacamole-server-1.1.0/src/common/surface.c:1142-1165 | one row of a transfer, in either direction, on possibly the same buffer: every pixel gets the function of the old values and the extent of changes is kept |
| `Pixels.TransferWith` | guacamole-server-1.1.0/src/common/surface.c:1105-1198 | overlapping or not, every destination pixel becomes op(old source, old destination), nothing else changes, and the trimmed rectangle is the exact bounding box of the changed pixels, with the source offset moved along |
| `Pixels.Update` | guacamole-server-1.1.0/src/common/surface.c:955-1037 | every pixel of the area becomes the given function of its old value, nothing else changes, and the trimmed rectangle bounds exactly the changed pixels |
| `Operators.OverGivesSource` | guacamole-server-1.1.0/src/common/surface.c:1444-1447 | the operator OVER gives the source colour if and only if that is opaque, nothing lies below, or what lies below fades to nothing |
| `Updates.Sort` | guacamole-server-1.1.0/src/common/surface.c:1814-1829 | sorting the queue by the comparator gives a sorted permutation |
| `Updates.SortKeepsQueued` | guacamole-server-1.1.0/src/common/surface.c:1814-1829 | a pixel is queued after sorting if and only if it was before |
| `Updates.MarkedWaits` | guacamole-server-1.1.0/src/common/surface.c:340-356 | an update joins what waits, and nothing that waited is lost |
| `Updates.MarkedIsLeast` | guacamole-server-1.1.0/src/common/surface.c:340-356 | the dirty rectangle is the least that holds all updates |
| `Updates.GatherKeeps` | guacamole-server-1.1.0/src/common/surface.c:1888-1909 | merging queued rectangles loses no waiting pixel and flushes the first, for every function that could decide what is worth combining |
| `Updates.SendingContains` | guacamole-server-1.1.0/src/common/surface.c:1617-1804 | the rectangle sent contains the dirty rectangle and stays within the surface, for every image format |
| `Updates.SendingIsGrown` | guacamole-server-1.1.0/src/common/surface.c:1617-1804 | an image goes without its alpha channel exactly if the dirty rectangle is opaque; as PNG it is that rectangle, and otherwise grown to blocks of 8 or 16 |
| `Updates.SendingIsFaithful` | guacamole-server-1.1.0/src/common/surface.c:1617-1804 | without WebP every image has no alpha channel or clears its area first, and with PNG alone an image without alpha channel has opaque pixels only |
| `Updates.OneImage` | guacamole-server-1.1.0/src/common/surface.c:1863-1949 | a single dirty rectangle, queued and requeued by the loop, is sent as one image |
| `Updates.FlushLoopCovers` | guacamole-server-1.1.0/src/common/surface.c:1863-1949 | from any round of the flush loop on, every waiting pixel ends in an image sent, every image lies in the surface and nothing is left dirty, though the loop appends to the queue it walks |
| `Updates.FlushCovers` | guacamole-server-1.1.0/src/common/surface.c:1863-1949 | a flush ends with nothing dirty and an empty queue; its images cover every waiting pixel of the surface and lie in the surface |
| `Updates.FlushIdle` | guacamole-server-1.1.0/src/common/surface.c:1863-1949 | with nothing waiting a flush sends nothing |
| `Updates.DeferredCovers` | guacamole-server-1.1.0/src/common/surface.c:678-693 | deferring keeps every waiting pixel waiting or sends it, and the queue below its capacity |
| `Updates.PostponeCovers` | guacamole-server-1.1.0/src/common/surface.c:1341-1354 | after postponing an update every pixel of it waits, and every pixel that waited waits or lies in an image sent |
| `Clients.CopyArrivesIff` | guacamole-server-1.1.0/src/common/surface.c:1444-1447 | where the client had the source pixel right, a copy told it arrives if and only if the pixel is opaque or nothing of what the client showed shines through |
| `Clients.ReplayImages` | guacamole-server-1.1.0/src/common/surface.c:1863-1949 | what the client shows after a series of images, exactly, per pixel: replaced with opaque pixels, cleared and drawn over, or drawn over; other layers as before |
| `Clients.OpaqueArrives` | guacamole-server-1.1.0/src/common/surface.c:1617-1804 | an opaque pixel arrives with every image that covers it, in every format |
| `Clients.FaithfulImages` | guacamole-server-1.1.0/src/common/surface.c:1863-1949 | after images that have no alpha channel or clear their area first, the client shows each pixel they cover as it is, or without its alpha channel where the last of them had none |
| `Clients.ArrivesIff` | guacamole-server-1.1.0/src/common/surface.c:1617-1804 | a pixel arrives if and only if the last image covering it cleared the area, or has an alpha channel and OVER gives the pixel, or has none and the pixel is opaque |
| `Clients.TransparentPixelsLost` | guacamole-server-1.1.0/src/common/surface.c:1758-1804 | a WebP image leaves the old colour where a pixel has become transparent, and an image without alpha channel that grew over one shows it black |
| `Clients.ImagesCover` | guacamole-server-1.1.0/src/common/surface.c:1863-1949 | a pixel covered by the images sent is covered by an instruction for its layer |
| `Clients.AccountedTrans` | guacamole-server-1.1.0/src/common/surface.c:1319-1578 | that all changes are accounted for adds up over the steps of a run |
| `Shipping.FillStep` | guacamole-server-1.1.0/src/common/surface.c:1551-1573 | images and then an opaque fill: nothing goes missing and the client stays in step |
| `Shipping.TellCarries` | guacamole-server-1.1.0/src/common/surface.c:703-801 | the client gets an opaque result of any function right if it has the opaque ones of source and destination right and the result does not depend on a source pixel that is not opaque |
| `Shipping.AcrossPixel` | guacamole-server-1.1.0/src/common/surface.c:1496-1516 | what the client shows of a pixel after both flushes and the copy or transfer, exactly |
| `Shipping.AcrossInStep` | guacamole-server-1.1.0/src/common/surface.c:1496-1516 | an opaque result arrives if and only if it was not sent before with the function applied, or telling it again does not change it |
| `Shipping.WithinPixel` | guacamole-server-1.1.0/src/common/surface.c:1504-1520 | within one surface the client, told first, gets every opaque result right that does not depend on a source pixel which is not opaque |
| `Calls.TrimIsUnique` | guacamole-server-1.1.0/src/common/surface.c:1142-1190 | what an update is trimmed to depends on nothing but the pictures before and after it |
| `Calls.CombinedTransferred` | guacamole-server-1.1.0/src/common/surface.c:1105-1198 | the new picture is, bit by bit, the Boolean function of old source and old destination inside the area, and unchanged outside |
| `Calls.FlushKeeps` | guacamole-server-1.1.0/src/common/surface.c:1951-1963 | a flush as a function of the surface: nothing waits, nothing goes missing, opaque pixels are in step, every pixel is what the images make of it, other layers stay |
| `Calls.FlushIsShown` | guacamole-server-1.1.0/src/common/surface.c:1951-1963 | after a flush with PNG alone the client shows every pixel that waited, transparent ones too; with JPEG as well, those whose last image had an alpha channel |
| `Calls.PostponeKeeps` | guacamole-server-1.1.0/src/common/surface.c:1319-1395 | the end of draw and paint: all changes are accounted for, and opaque pixels stay in step |
| `Calls.SetKeeps` | guacamole-server-1.1.0/src/common/surface.c:1551-1573 | the end of set, in all three branches: the same |
| `Calls.AcrossKeeps` | guacamole-server-1.1.0/src/common/surface.c:1465-1528 | between two surfaces all changes are accounted for and the source stays in step; the destination does if and only if no pixel, by a condition on the surfaces before the call, is told twice |
| `Calls.ToldTwiceShows` | guacamole-server-1.1.0/src/common/surface.c:1465-1528 | each pixel told twice is wrong on the client and no longer waits |
| `Calls.NotTwice` | guacamole-server-1.1.0/src/common/surface.c:1494-1516 | no pixel is told twice by a copy or a repeatable function, when nothing of the destination waits, or when the update joins the dirty rectangle |
| `Calls.WithinKeeps` | guacamole-server-1.1.0/src/common/surface.c:1504-1520 | within one surface all changes are accounted for, and opaque pixels stay in step unless one depends on a source pixel that is not opaque |
| `Surfaces.Surface.constructor` | guacamole-server-1.1.0/src/common/surface.c:1200-1241 | a new surface is transparent, has nothing waiting and is in step with the client |
| `Surfaces.Surface.MarkDirty` | guacamole-server-1.1.0/src/common/surface.c:340-356 | what is remembered becomes what the tracking function gives |
| `Surfaces.Surface.FlushToQueue` | guacamole-server-1.1.0/src/common/surface.c:643-659 | the dirty rectangle becomes the last of the queue |
| `Surfaces.Surface.GatherFrom` | guacamole-server-1.1.0/src/common/surface.c:1888-1909 | the inner loop computes the merging for which GatherKeeps is proved |
| `Surfaces.Surface.IsOpaque` | guacamole-server-1.1.0/src/common/surface.c:227-258 | true if and only if every pixel of the rectangle is opaque |
| `Surfaces.Surface.SendImage` | guacamole-server-1.1.0/src/common/surface.c:1617-1804 | the instructions and the remembered state of the image for which SendingIsGrown and SendingIsFaithful are proved |
| `Surfaces.Surface.FlushRounds` | guacamole-server-1.1.0/src/common/surface.c:1879-1944 | the outer loop, which appends to the queue it walks, terminates within the capacity of the queue and computes the loop function for which FlushLoopCovers is proved |
| `Surfaces.Surface.FlushImages` | guacamole-server-1.1.0/src/common/surface.c:1863-1949 | the whole computes the flush for which FlushCovers is proved, as a function of what was remembered, the pixels and the formats wanted |
| `Surfaces.Surface.Flush` | guacamole-server-1.1.0/src/common/surface.c:1951-1963 | nothing waits afterwards and every waiting pixel was covered; if only PNG was wanted the client shows every pixel that waited exactly as the buffer has it, transparent or not; without WebP it does so wherever the last image had an alpha channel, and otherwise without the alpha; other layers stay |
| `Surfaces.Surface.FlushDeferred` | guacamole-server-1.1.0/src/common/surface.c:678-693 | the dirty rectangle moves to the queue, flushing first when one slot is left |
| `Surfaces.Surface.Draw` | guacamole-server-1.1.0/src/common/surface.c:1319-1359 | each pixel inside image and clip gets the drawn colour, all others stay; the update is trimmed to what changed; every change waits or was covered since, and opaque pixels stay in step |
| `Surfaces.Surface.Paint` | guacamole-server-1.1.0/src/common/surface.c:1361-1395 | the same for filling through a mask, without trimming |
| `Surfaces.Surface.ShipFill` | guacamole-server-1.1.0/src/common/surface.c:1551-1573 | a fill that is not opaque is postponed, an opaque one joins the dirty rectangle or is sent after everything that waits |
| `Surfaces.Surface.Set` | guacamole-server-1.1.0/src/common/surface.c:1530-1578 | each pixel inside area and clip gets the colour, all others stay; trimmed, accounted for and in step as for drawing |
| `Surfaces.Surface.SetClip` | guacamole-server-1.1.0/src/common/surface.c:1580-1597 | the clip becomes the intersection of old clip and rectangle |
| `Surfaces.Surface.ResetClip` | guacamole-server-1.1.0/src/common/surface.c:1599-1603 | the clip is the whole surface |
| `Surfaces.Surface.ClipMove` | guacamole-server-1.1.0/src/common/surface.c:1476-1492 | a copy or transfer is cut down to exactly the pixels with a source inside the source surface and a target inside the clip |
| `Surfaces.Surface.MovePixels` | guacamole-server-1.1.0/src/common/surface.c:1105-1198 | every pixel of the area becomes the function of old source and old destination, also when a surface is its own source |
| `Surfaces.Surface.MoveAcross` | guacamole-server-1.1.0/src/common/surface.c:1494-1516 | local buffer first, then the client: the new state of both surfaces and the connection as a function of the old |
| `Surfaces.Surface.MoveWithin` | guacamole-server-1.1.0/src/common/surface.c:1504-1520 | client first, then the local buffer: the new state as a function of the old |
| `Surfaces.Surface.Transfer` | guacamole-server-1.1.0/src/common/surface.c:1465-1528 | every pixel reached becomes, in every bit, the Boolean function of old source and old destination, and no other pixel changes; every change is accounted for; unless an opaque result depends on a source pixel that is not opaque, the destination stays in step if and only if no pixel is told twice, which holds for one surface, a repeatable function, a destination where nothing waits and an update that joins the dirty rectangle |
| `Surfaces.Surface.Copy` | guacamole-server-1.1.0/src/common/surface.c:1397-1463 | every pixel reached becomes the old source pixel; every change is accounted for; opaque pixels of both surfaces stay in step, though the client is told to copy with OVER |
| `Runs.Apply` | guacamole-server-1.1.0/src/common/surface.c:1319-1578 | one call of any kind: all changes of both surfaces are accounted for, and opaque pixels stay in step where the call is plain, or solid on opaque surfaces |
| `Runs.Run` | guacamole-server-1.1.0/src/common/surface.c:1319-1578 | over every run of draw, paint, set, copy, transfer, clip and flush calls on two surfaces, without restriction: between any two moments each pixel that changed or was waiting waits or was covered by an instruction sent since; opaque pixels stay in step over runs whose transfers are plain, and opaque surfaces over runs whose transfers between them are repeatable and whose fills are opaque |
| `Runs.FlushBoth` | guacamole-server-1.1.0/src/common/surface.c:1951-1963 | surfaces in step, once both are flushed, show every opaque pixel on the client |
| `OutOfStep.XorAcrossWaitingRow` | guacamole-server-1.1.0/src/common/surface.c:1465-1528 | two new surfaces, a fill, a row drawn and a column transferred with XOR, after which the client is out of step |
| `OutOfStep.CopyOfNothing` | guacamole-server-1.1.0/src/common/surface.c:1444-1447 | a transparent area copied onto a filled one: locally it is transparent, the client keeps the colour, and nothing waits |
| `OutOfStep.TransparentUnderWebp` | guacamole-server-1.1.0/src/common/surface.c:1758-1804 | a surface of one colour is made transparent and flushed as WebP: the client keeps the colour |
| `Unicode.MasksSelectRanges` | guacamole-server-1.1.0/src/libguac/unicode.c:26-37 | the bit masks select the lead-byte ranges of section 3 of RFC 3629 |
| `Unicode.SizeByMasks` | guacamole-server-1.1.0/src/libguac/unicode.c:26-37 | the size of a character is what the four masks of the code give, for every byte |
| `Unicode.FrontIsOneCharacter` | guacamole-server-1.1.0/src/libguac/unicode.c:26-37 | a character that is well-formed by RFC 3629 has the size the code gives it, and one byte that is not a continuation byte |
| `Unicode.StumpOfTree` | guacamole-server-1.1.0/src/libguac/unicode.c:26-37 | the definition of UTF-8 reads an example of section 7 of RFC 3629 as that gives it |
| `Unicode.WellFormedIsCounted` | guacamole-server-1.1.0/src/libguac/unicode.c:39-69 | well-formed UTF-8 ends on a character boundary, and its character count is the number of its code points and of its bytes other than continuation bytes |
| `Unicode.Strlen` | guacamole-server-1.1.0/src/libguac/unicode.c:39-69 | the loop counts the characters of a string, one cut off at the end included; on well-formed UTF-8 that is the number of code points |
| `Parser.NextIsStable` | guacamole-server-1.1.0/src/libguac/parser.c:58-164 | a step of the parse does not change when more bytes follow |
| `Parser.ParseResumes` | guacamole-server-1.1.0/src/libguac/parser.c:58-164 | parsing s and then t is parsing s + t, cuts inside a length or a character included |
| `Parser.ChunksDoNotMatter` | guacamole-server-1.1.0/src/libguac/parser.c:58-164 | however a stream is cut into chunks, the outcome is that of parsing it whole |
| `Parser.ScanLength` | guacamole-server-1.1.0/src/libguac/parser.c:70-107 | the length loop consumes exactly the digits and period of the length prefix, or fails as the parse does |
| `Parser.ScanContent` | guacamole-server-1.1.0/src/libguac/parser.c:110-160 | the content loop consumes whole characters and the terminator, waits on a character cut off, or fails as the parse does |
| `Parser.GuacParser.Append` | guacamole-server-1.1.0/src/libguac/parser.c:58-164 | the bytes used take the parse the object stands for to the one it stands for afterwards; elements become C strings in the buffer; an element count at the limit fails |
| `Parser.GuacParser.ShiftDown` | guacamole-server-1.1.0/src/libguac/parser.c:188-212 | moving the current instruction to the front of the buffer leaves every element and the unparsed bytes as they were |
| `Parser.GuacParser.Read` | guacamole-server-1.1.0/src/libguac/parser.c:166-267 | a successful read returns the elements of the pure parse whatever sizes the bytes arrive in, and no byte is lost; it fails only when the parse fails or is at the element limit, or fills the whole buffer; it reports no data only when the bytes received so far need more, and if every wait brings something only when no byte is left |
| `Parser.GuacParser.Drain` | guacamole-server-1.1.0/src/libguac/parser.c:296-313 | what is taken and what stays are the unparsed bytes |
| `Parser.Session` | guacamole-server-1.1.0/src/libguac/parser.c:166-313 | in any series of reads and shifts each call continues where the one before stopped: every instruction is the parse of the stream from there, and instructions, shifted bytes and what is left make up the stream |
| `Parser.LastElementReadInTwoCalls` | guacamole-server-1.1.0/src/libguac/parser.c:63-68 | an instruction of exactly the maximum number of elements fails if a call begins within its last element, though it parses whole |
| `Protocol.InstructionParses` | guacamole-server-1.1.0/src/libguac/protocol.c:44-51 | any list of writable elements that end on a character boundary, written with its character counts, parses to exactly that list |
| `Protocol.WellFormedParses` | guacamole-server-1.1.0/src/libguac/protocol.c:44-51 | any list of well-formed UTF-8 elements, each written after the number of its bytes other than continuation bytes, is what the writer writes, and parses to exactly that list |
| `Grammar.ParsedIsSpelled` | guacamole-server-1.1.0/src/libguac/parser.c:58-164 | whatever a finished parse has read is an instruction: digits, a period and as many whole characters as they say, for each element, with commas between and a semicolon at the end |
| `Grammar.SpelledIsParsed` | guacamole-server-1.1.0/src/libguac/parser.c:58-164 | every such text is parsed to its elements and used up |
| `Grammar.ParsesIffSpelled` | guacamole-server-1.1.0/src/libguac/parser.c:58-164 | the parser accepts exactly the instructions: a stream parses to these elements using so many bytes if and only if those bytes spell them |
| `Protocol.WriterAndParserAgree` | guacamole-server-1.1.0/src/libguac/protocol.c:44-51 | writer and parser agree if and only if every element ends on a character boundary |
| `Base64.CharIsFromTable` | guacamole-server-1.1.0/src/libguac/socket.c:37-43 | characters and padding are those of table 1 in section 4 of RFC 4648 |
| `Base64.OnlyAlphabetCounts` | guacamole-server-1.1.0/src/libguac/protocol.c:1188-1207 | only characters of the alphabet have a value, all others count as zero |
| `Base64.EncodeWhole` | guacamole-server-1.1.0/src/libguac/socket.c:233-317 | encoding whole triplets and then the rest is encoding all of it |
| `Base64.DecodeOfEncode` | guacamole-server-1.1.0/src/libguac/protocol.c:1209-1242 | decoding an encoding, by section 4 of RFC 4648, gives the data back |
| `Base64.BytesSnoc` | guacamole-server-1.1.0/src/libguac/protocol.c:1217-1233 | what one more digit adds to the bytes decoded so far |
| `Base64.DecodeValue` | guacamole-server-1.1.0/src/libguac/protocol.c:1220-1233 | the 32-bit accumulator yields the byte that the digit completes |
| `Base64.DecodeInPlace` | guacamole-server-1.1.0/src/libguac/protocol.c:1209-1242 | decoding over its own input gives the decoding of the old text, because output never overtakes input, and writes nothing beyond it |
| `Blobs.Socket.WriteTriplet` | guacamole-server-1.1.0/src/libguac/socket.c:233-297 | a triplet, or a part of one with padding, is written as its four characters |
| `Blobs.Socket.WriteBase64` | guacamole-server-1.1.0/src/libguac/socket.c:319-336 | what is written and what is kept ready stand for all bytes given so far |
| `Blobs.Socket.FlushBase64` | guacamole-server-1.1.0/src/libguac/socket.c:349-364 | the bytes kept ready go out padded |
| `Blobs.Socket.WriteElement` | guacamole-server-1.1.0/src/libguac/protocol.c:44-51 | an element is written with its character count |
| `Blobs.Socket.SendBlob` | guacamole-server-1.1.0/src/libguac/protocol.c:195-216 | a blob instruction goes out whose declared length is the number of characters written |
| `Blobs.Socket.SendBlobs` | guacamole-server-1.1.0/src/libguac/protocol.c:218-243 | the data goes out as blobs of limited size, in order |
| `Blobs.EncodedLength` | guacamole-server-1.1.0/src/libguac/protocol.c:195-216 | the declared length is the character count of the encoding |
| `Blobs.BlobParses` | guacamole-server-1.1.0/src/libguac/protocol.c:195-216 | a blob instruction parses to opcode, index and encoded data |
| `Blobs.BlobsReassemble` | guacamole-server-1.1.0/src/libguac/protocol.c:218-243 | parsing and decoding the blobs of any data gives exactly the data |
| `Blobs.ImageStream.Receive` | guacamole-server-1.1.0/src/guacenc/image-stream.c:92-118 | the stream holds its old contents and then the data, growing when it must |
| `Blobs.HandleBlob` | guacamole-server-1.1.0/src/guacenc/instruction-blob.c:29-51 | the decoded third element is appended, decoded where it lies, and unparsed bytes behind it are untouched |
| `Blobs.ReceiveBlobs` | guacamole-server-1.1.0/src/libguac/parser.c:166-267 | reading, decoding and receiving everything send_blobs wrote yields exactly the data, or ends for lack of data; it succeeds whenever every wait brings something |
| `Blobs.Transmit` | guacamole-server-1.1.0/src/libguac/protocol.c:195-243 | from end to end, with writes and reads of any sizes: what the image stream holds is the data sent; sending succeeds whenever no write fails, and receiving whenever every wait brings something |
| `CJson.NumberReadsBack` | guacamole-server-1.1.0/src/guacenc/cJSON.c:96-115 | a printed integer reads back as itself and leaves the rest, unless the rest continues a number |
| `CJson.StringReadsBack` | guacamole-server-1.1.0/src/guacenc/cJSON.c:192-249 | every string, escapes and control characters included, reads back as itself and fits the space counted for it |
| `CJson.ItemsReadBack` | guacamole-server-1.1.0/src/guacenc/cJSON.c:406-431 | the printed items from any position on read back, formatted or not |
| `CJson.MembersReadBack` | guacamole-server-1.1.0/src/guacenc/cJSON.c:514-547 | the printed members from any position on read back, formatted or not |
| `CJson.ReadsBack` | guacamole-server-1.1.0/src/guacenc/cJSON.c:357-369 | for every tree of null, booleans, int-range integers, strings, arrays and objects, at every depth, formatted or not: parsing the text followed by anything gives the tree and what follows |
| `CJsonPrinter.PrintString` | guacamole-server-1.1.0/src/guacenc/cJSON.c:252-307 | the buffer has exactly the computed size and holds the escaped string |
| `CJsonPrinter.PrintNumber` | guacamole-server-1.1.0/src/guacenc/cJSON.c:147-175 | an int-range integer fits its buffer |
| `CJsonPrinter.ComposeArray` | guacamole-server-1.1.0/src/guacenc/cJSON.c:498-508 | an array composed in a buffer of the reserved size fits, terminator included |
| `CJsonPrinter.PrintArray` | guacamole-server-1.1.0/src/guacenc/cJSON.c:434-511 | the C string of an array |
| `CJsonPrinter.ComposeObject` | guacamole-server-1.1.0/src/guacenc/cJSON.c:640-655 | an object composed in a buffer of the reserved size fits, terminator included |
| `CJsonPrinter.PrintObject` | guacamole-server-1.1.0/src/guacenc/cJSON.c:550-658 | the C string of an object; the empty object has its own form |
| `CJsonPrinter.PrintValue` | guacamole-server-1.1.0/src/guacenc/cJSON.c:372-403 | the C string of every printable tree, all writes within the sizes computed beforehand |
| `CJsonPrinter.JoinedFits` | guacamole-server-1.1.0/src/guacenc/cJSON.c:475-483 | the space print_array reserves for entries and separators suffices |
| `CJsonPrinter.ListedFits` | guacamole-server-1.1.0/src/guacenc/cJSON.c:618-626 | the space print_object reserves for members, tabs and separators suffices |
| `CJsonParser.ParseNumber` | guacamole-server-1.1.0/src/guacenc/cJSON.c:96-115 | sign, digits, fraction and exponent as the reading function has them |
| `CJsonParser.ParseString` | guacamole-server-1.1.0/src/guacenc/cJSON.c:192-249 | both passes over a string, as the reading function has them |
| `CJsonParser.ParseArray` | guacamole-server-1.1.0/src/guacenc/cJSON.c:406-431 | the item loop computes the recursive reading |
| `CJsonParser.ParseObject` | guacamole-server-1.1.0/src/guacenc/cJSON.c:514-547 | the member loop computes the recursive reading |
| `CJsonParser.ParseValue` | guacamole-server-1.1.0/src/guacenc/cJSON.c:357-369 | the dispatch on the first bytes |
| `CJsonParser.Parse` | guacamole-server-1.1.0/src/guacenc/cJSON.c:323-337 | leading space is skipped; with the end required, only space may follow |
| `CJsonParser.PrintThenParse` | guacamole-server-1.1.0/src/guacenc/cJSON.c:342-343 | printing a tree and parsing the text gives the tree and uses up all text |
| `CJsonParser.CompleteFits` | guacamole-server-1.1.0/src/guacenc/cJSON.c:192-249 | when every escape is complete, hexadecimal or not, both passes over the string end at the same place and the output fits the space counted |
| `CJsonParser.CompleteIsDefined` | guacamole-server-1.1.0/src/guacenc/cJSON.c:192-249 | such a string is parsed within its buffers |
| `CJsonParser.CutOffIsUndefined` | guacamole-server-1.1.0/src/guacenc/cJSON.c:192-249 | a string whose escape is cut off by the end of the text makes the parser read past it |
| `CJsonParser.CrossingReads` | guacamole-server-1.1.0/src/guacenc/cJSON.c:192-249 | where the four bytes of an escape begin with a quote the passes lose step: what follows is read if it is at most one byte, and otherwise overflows the buffer |
| `CJsonParser.FailingStrings` | guacamole-server-1.1.0/src/guacenc/cJSON.c:192-249 | the shortest failing inputs of both kinds |
| `CJsonStrings.Utf8IsCharacter` | guacamole-server-1.1.0/src/guacenc/cJSON.c:228-236 | the bytes written for a code point are, by RFC 3629, that code point |
| `CJsonStrings.StringMeans` | guacamole-server-1.1.0/src/guacenc/cJSON.c:192-249 | a string of characters in UTF-8, of backslash letters and of \u escapes with digits of either case and surrogate pairs, in any order, is read as well-formed UTF-8 for exactly the code points it stands for by section 7 of RFC 8259 |
| `CJsonStrings.StrayIsDropped` | guacamole-server-1.1.0/src/guacenc/cJSON.c:215-227 | an escape for zero, for a second surrogate, or for a first one with no escape behind it names no character and is dropped |
| `CJsonNumbers.NumeralMeans` | guacamole-server-1.1.0/src/guacenc/cJSON.c:96-115 | a numeral by section 6 of RFC 8259, with any fraction and exponent, is read as the real number its places stand for |
| `CJsonDocuments.ItemsAreRead` | guacamole-server-1.1.0/src/guacenc/cJSON.c:406-431 | the items of any array, with any white space around them, are read as what they stand for |
| `CJsonDocuments.MembersAreRead` | guacamole-server-1.1.0/src/guacenc/cJSON.c:514-547 | the members of any object, with any white space around names, colons and values, are read as what they stand for |
| `CJsonDocuments.DocIsRead` | guacamole-server-1.1.0/src/guacenc/cJSON.c:357-369 | every JSON text of RFC 8259, however nested and spaced, is read as the tree it stands for, and what follows it is left over |
| `CJsonDocuments.ParseDocument` | guacamole-server-1.1.0/src/guacenc/cJSON.c:323-337 | parsing a whole text with white space around it gives the tree it stands for and uses up all of it |
| `Flatten.ComparisonIsOrder` | guacamole-server-1.1.0/src/guacenc/display-flatten.c:47-79 | the comparator is an order |
| `Flatten.KidsComeFirst` | guacamole-server-1.1.0/src/guacenc/display-flatten.c:47-79 | no layer sorts after its parent |
| `Flatten.KidsAreDone` | guacamole-server-1.1.0/src/guacenc/display-flatten.c:125-204 | at a layer's turn all its children have been painted onto it |
| `Flatten.KidsAreChildren` | guacamole-server-1.1.0/src/guacenc/display-flatten.c:125-204 | the children painted are exactly the visible children among the layers, each as often as it occurs |
| `Flatten.KidsDescend` | guacamole-server-1.1.0/src/guacenc/display-flatten.c:47-79 | children are painted in descending order of Z |
| `Flatten.PaintedOneMore` | guacamole-server-1.1.0/src/guacenc/display-flatten.c:155-199 | one step of the linear pass paints a finished frame onto its parent |
| `Flatten.Display.GetLayer` | guacamole-server-1.1.0/src/guacenc/display-layers.c:29-60 | an index within bounds gives its layer, allocated if need be; allocated layers stay as they are |
| `Flatten.Display.GetDepth` | guacamole-server-1.1.0/src/guacenc/display-layers.c:62-79 | the number of links to the root, allocating missing parents on the way |
| `Flatten.Display.Compare` | guacamole-server-1.1.0/src/guacenc/display-flatten.c:47-79 | the comparator, which may allocate layers, gives the comparison |
| `Flatten.Display.Sort` | guacamole-server-1.1.0/src/guacenc/display-flatten.c:133-136 | a sorted permutation of the layers |
| `Flatten.Display.ResetFrames` | guacamole-server-1.1.0/src/guacenc/display-flatten.c:138-153 | every frame starts as the buffer of its layer |
| `Flatten.Display.RenderLayers` | guacamole-server-1.1.0/src/guacenc/display-flatten.c:155-199 | on any order qsort may give, the linear pass leaves in every frame the recursive composition of its subtree |
| `Flatten.Display.Render` | guacamole-server-1.1.0/src/guacenc/display-flatten.c:125-204 | flattening leaves in every frame the recursive composition, each allocated layer taking part once |
| `Placement.FrameShows` | guacamole-server-1.1.0/src/guacenc/display-flatten.c:155-199 | at every point the frame of a layer shows exactly the pixels of the layers that are or hang below it through visible layers, each shifted by the sum of the offsets between and painted with the opacities between |
| `Placement.DescendsOn` | guacamole-server-1.1.0/src/guacenc/display-flatten.c:155-199 | offsets add up and opacities line up along the way from a layer to its ancestors |
| `Timeline.AcceptedIsOrdered` | guacamole-server-1.1.0/src/guacenc/display-sync.c:32-42 | accepted times never decrease and are never negative |
| `Timeline.OrderedIsAccepted` | guacamole-server-1.1.0/src/guacenc/display-sync.c:32-42 | nothing is rejected that does not go back in time |
| `Timeline.Video.AdvanceTimeline` | guacamole-server-1.1.0/src/guacenc/video.c:210-245 | as many copies of the prepared frame are written as whole periods fit, and the rest of the time is kept |
| `Timeline.FramesAdded` | guacamole-server-1.1.0/src/guacenc/video.c:210-245 | frames due at a sync follow from those due before it, without drift |
| `Timeline.StillFilmed` | guacamole-server-1.1.0/src/guacenc/video.c:210-245 | frames written at a sync show the state before it, and earlier frames stay right |
| `Timeline.Display.HandleSync` | guacamole-server-1.1.0/src/guacenc/display-sync.c:32-59 | a sync going back in time is rejected; any other keeps the whole-recording invariant |
| `Timeline.Encode` | guacamole-server-1.1.0/src/guacenc/display-sync.c:32-59 | over every recording the video has floor((t - t0)/40) frames, and frame k shows the last state synced before t0 + 40(k + 1) |
| `Timeline.FitsHeight` | guacamole-server-1.1.0/src/guacenc/video.c:374-393 | the letterbox assertion always holds |
| `Timeline.Margins` | guacamole-server-1.1.0/src/guacenc/video.c:374-393 | only one direction is padded, and the padded image has the frame's proportions within the stated bounds |
| `Palettes.DistinctIsSet` | guacamole-server-1.1.0/src/libguac/palette.c:31-102 | the list of distinct colours has no repeats and exactly the colours that occur |
| `Palettes.DistinctByAppearance` | guacamole-server-1.1.0/src/libguac/palette.c:31-102 | colours are listed in order of first appearance |
| `Palettes.FreeBucket` | guacamole-server-1.1.0/src/libguac/palette.c:55-89 | a table with fewer colours than buckets has a free bucket, so probing ends |
| `Palettes.StoreColor` | guacamole-server-1.1.0/src/libguac/palette.c:58-79 | storing a colour where probing for it ends keeps every colour reachable by probing |
| `Palettes.Absent` | guacamole-server-1.1.0/src/libguac/palette.c:104-129 | probing that ends at a free bucket has missed no colour |
| `Palettes.Palette.Probe` | guacamole-server-1.1.0/src/libguac/palette.c:110-127 | probing terminates at the colour, or at a free bucket if it is not stored |
| `Palettes.Palette.Add` | guacamole-server-1.1.0/src/libguac/palette.c:47-90 | a new colour is appended; fails exactly on a new colour when 256 are stored |
| `Palettes.Palette.Find` | guacamole-server-1.1.0/src/libguac/palette.c:104-129 | -1 exactly for absent colours, else the position, and the stored components give the colour back |
| `Palettes.BuildPalette` | guacamole-server-1.1.0/src/libguac/palette.c:31-102 | fails if and only if the image has more than 256 distinct colours; otherwise the palette is their list by first appearance |
| `Palettes.BitsPerPixel` | guacamole-server-1.1.0/src/libguac/encode-png.c:301-305 | the least of 1, 2, 4 and 8 bits that the palette size fits |
| `Palettes.IndexRows` | guacamole-server-1.1.0/src/libguac/encode-png.c:346-366 | every index fits the bits per pixel, and the palette entry there has the red, green and blue bytes of the pixel |
| `Palettes.IndexImage` | guacamole-server-1.1.0/src/libguac/encode-png.c:289-366 | an image is indexed if and only if it has at most 256 colours, and then palette and indices give every pixel its red, green and blue bytes |
| `Pools.TakeKeeps` | guacamole-server-1.1.0/src/libguac/pool.c:71-107 | a drawn value was not in use, and values in use and free still partition those below the next |
| `Pools.GiveKeeps` | guacamole-server-1.1.0/src/libguac/pool.c:109-134 | returning a value in use keeps the partition |
| `Pools.TakeIsSmall` | guacamole-server-1.1.0/src/libguac/client.c:97-118 | a pool of minimum size 0 with fewer than max values in use only draws values below max |
| `Pools.RunKeeps` | guacamole-server-1.1.0/src/libguac/pool.c:71-134 | in every run that frees only values in use, the partition holds and no value in use is drawn |
| `Pools.ReuseKeeps` | guacamole-server-1.1.0/src/libguac/pool.c:71-134 | over every run the values reused and those still free are together those freed, in the order they were freed |
| `Pools.ReusedInOrder` | guacamole-server-1.1.0/src/libguac/pool.c:71-134 | values come back in the order they were freed |
| `Pools.NoneReusedEarly` | guacamole-server-1.1.0/src/libguac/pool.c:71-107 | none comes back before all values below the minimum size have been handed out |
| `Pools.IntPool.NextInt` | guacamole-server-1.1.0/src/libguac/pool.c:71-107 | on the linked list: a new value while none is free or the minimum is not reached, else the value free longest |
| `Pools.IntPool.FreeInt` | guacamole-server-1.1.0/src/libguac/pool.c:109-134 | on the linked list: the value goes to the end of the free list |
| `Pools.Client.AllocStream` | guacamole-server-1.1.0/src/libguac/client.c:97-119 | fails if and only if all 64 slots are open; otherwise a closed slot within the array opens with its own odd index |
| `Pools.Client.FreeStream` | guacamole-server-1.1.0/src/libguac/client.c:121-129 | the slot closes, and no other; the pool keeps its partition if and only if the stream was open, for a closed one puts -1 into it |
| `Paths.NormalPathIsNormal` | guacamole-server-1.1.0/src/common-ssh/sftp.c:36-102 | the normal form is absolute, has no empty, . or .. component, and is its own normal form |
| `Paths.NormalIsStable` | guacamole-server-1.1.0/src/common-ssh/sftp.c:36-102 | a path of names joined by slashes is its own normal form |
| `Paths.ParentUndoesName` | guacamole-server-1.1.0/src/common-ssh/sftp.c:69-72 | a name followed by .. may be dropped anywhere in a path |
| `Paths.RootHasNoParent` | guacamole-server-1.1.0/src/common-ssh/sftp.c:69-72 | at the root .. may be dropped |
| `Paths.DotIsDropped` | guacamole-server-1.1.0/src/common-ssh/sftp.c:65-84 | a single dot and a doubled separator may be dropped anywhere in a path |
| `Paths.BackslashSeparates` | guacamole-server-1.1.0/src/common-ssh/sftp.c:60-63 | a backslash separates components as a slash does |
| `Paths.SplitOfJoin` | guacamole-server-1.1.0/src/libguac/string.c:84-106 | splitting a joined path gives its components back |
| `Paths.NormalFits` | guacamole-server-1.1.0/src/common-ssh/sftp.c:36-102 | the normal form is no longer than the path, and at most half as deep as the path is long |
| `Paths.DepthIsBounded` | guacamole-server-1.1.0/src/common-ssh/sftp.c:78-80 | within the size limit the depth limit is out of reach at every point of the loop |
| `Paths.Strlcpy` | guacamole-server-1.1.0/src/libguac/string.c:45-71 | as much as fits, terminated, and the full length |
| `Paths.Strlcat` | guacamole-server-1.1.0/src/libguac/string.c:73-82 | the text goes after the first terminator within the limit, as much as fits |
| `Paths.Strljoin` | guacamole-server-1.1.0/src/libguac/string.c:84-106 | as much of the joined text as fits, terminated, and the full length |
| `Paths.TakeComponent` | guacamole-server-1.1.0/src/common-ssh/sftp.c:65-84 | a terminated component is followed on the stack, which stays readable in the scratch copy |
| `Paths.FindComponents` | guacamole-server-1.1.0/src/common-ssh/sftp.c:57-91 | the loop evaluates the components on the stack and never fails for depth |
| `Paths.NormalizePath` | guacamole-server-1.1.0/src/common-ssh/sftp.c:36-102 | fails if and only if the path is not absolute or has 2048 bytes or more; otherwise the buffer holds the whole normal form |
| `KeyState.KnownKeysAscend` | guacamole-server-1.1.0/src/guaclog/keydef.c:33-119 | the table of known keys is strictly ascending, as bsearch needs |
| `KeyState.FindKnown` | guacamole-server-1.1.0/src/guaclog/keydef.c:163-170 | the search finds a key if and only if it is in the table |
| `KeyState.ModifierKeysyms` | guacamole-server-1.1.0/src/guaclog/keydef.c:33-119 | exactly the thirteen listed keysyms are modifiers |
| `KeyState.DefineKey` | guacamole-server-1.1.0/src/guaclog/keydef.c:299-317 | known keys first, then Unicode keysyms, else unknown; only known keys can be modifiers |
| `KeyState.CharacterMask` | guacamole-server-1.1.0/src/guaclog/keydef.c:224-226 | the mask test selects the Unicode keysyms |
| `KeyState.UpdatedKeeps` | guacamole-server-1.1.0/src/guaclog/state.c:121-150 | updating or adding a key keeps keys distinct and changes only that key |
| `KeyState.TrimmedKeeps` | guacamole-server-1.1.0/src/guaclog/state.c:161-182 | trimming keeps every pressed key and ends the table in one |
| `KeyState.TableTracksModifiers` | guacamole-server-1.1.0/src/guaclog/state.c:121-231 | after every history the table has distinct modifiers, ends in a pressed key, and marks as pressed exactly the modifiers whose latest event was a press |
| `KeyState.TableIsShort` | guacamole-server-1.1.0/src/guaclog/state.c:138-143 | at most thirteen keys are tracked, so the table is never full |
| `KeyState.KeyLog.AddKey` | guacamole-server-1.1.0/src/guaclog/state.c:121-150 | updates the entry or appends it; fails exactly on a full table without the key |
| `KeyState.KeyLog.TrimKeys` | guacamole-server-1.1.0/src/guaclog/state.c:161-182 | the table up to its last pressed key |
| `KeyState.KeyLog.UpdateKey` | guacamole-server-1.1.0/src/guaclog/state.c:211-231 | the table stays the one of the history, and never comes near its capacity |
| `Jobs.StepConserves` | guacamole-server-1.1.0/src/guacenc/jobs.c:143-222 | a step only moves permits between semaphore, holders and workers that ended on a parse error |
| `Jobs.WindowIsKept` | guacamole-server-1.1.0/src/guacenc/jobs.c:143-222 | in every interleaving permits + holders + parse-error exits = window, so there are never more holders |
| `Jobs.LostToParseErrors` | guacamole-server-1.1.0/src/guacenc/jobs.c:143-222 | after every run the permits lost are as many as its parse errors, and the semaphore holds what was not taken by waking workers or was given back when time was up or they stopped |
| `Jobs.StuckWhenAllLost` | guacamole-server-1.1.0/src/guacenc/jobs.c:196-199 | once parse errors have used up the window no permit is left, none ever comes back and no worker ever runs again |
| `Jobs.CanRunAgain` | guacamole-server-1.1.0/src/guacenc/jobs.c:143-222 | as long as one permit is not lost, every waiting worker can get to run by at most two moves |
| `Jobs.RunsAgainIff` | guacamole-server-1.1.0/src/guacenc/jobs.c:143-222 | from every reachable state a waiting worker can run again if and only if parse errors have not used up the window |
| `Jobs.OneParseErrorIsEnough` | guacamole-server-1.1.0/src/guacenc/jobs.c:196-199 | a run of two workers on one permit in which one parse error leaves the other waiting for ever |

## Left out

- `Surfaces.Surface.Transfer`: the if-and-only-if is stated where no opaque result depends on a source pixel that is not opaque, since the client may show such a pixel differently.
- `Runs.Run`: two surfaces on one connection, images without loss, and the client's OVER as composition of premultiplied colours; pixel statements are about opaque pixels, the others have the conditions of `Clients.ArrivesIff` and `Clients.CopyArrivesIff`.
- `Pixels.Update`: when setting an area of one pixel, the trimmed rectangle is that pixel even if it did not change, as in the code; the same for `Pixels.TransferWith`.
- `Parser.GuacParser.Read`: nothing is promised about the parser after a failed read, because the code then forgets where the unparsed bytes were.
- `Parser.ScanLength`: that the cutting into chunks does not matter assumes that a length prefix does not overflow an int; the code checks the maximum only after the loop over a chunk, so that a longer number in one chunk may wrap around.
- `Blobs.Socket.SendBlobs`: after a failed write only the failure is reported.
- `CJson.ReadsBack`: printing is modelled for integers in the range of int; other numbers print through floating-point formats.
- `CJsonNumbers.NumeralMeans`: numbers are real numbers, without the rounding of a double or the overflow of the exponent.
- `CJsonDocuments.DocIsRead`: strings without \u0000 and unpaired surrogates, which the code drops (`CJsonStrings.StrayIsDropped`).
- `CJsonParser.CrossingReads`: escapes whose four bytes hold a quote or backslash at other places than the first are computed by the same functions, but have no statement of their own.
- `CJsonPrinter.PrintNumber`: only integers in the range of int, since others print through floating-point formats of the C library.
- `CJsonPrinter.PrintValue`: numbers as for `CJsonPrinter.PrintNumber`; intermediate terminators that are overwritten at once are not written, and the texts of children are kept as values instead of pointers.
- `Operators.SumIsOverIff`: for components whose sum is not clamped to 255; a clamped one is 255.
- `CJsonParser.ParseNumber`: the same real numbers as for `CJsonNumbers.NumeralMeans`.
- `Placement.FrameShows`: what one buffer is cut down to when painted, its own width and height, is not modelled, nor how opacities mix colours.
- `Flatten.Display.Render`: requires that parent links form no cycle, which the move instruction does not check, and stops before the mouse cursor is drawn.
- `Timeline.Encode`: no encoder failure, no frame dropped for lack of memory, and gaps short enough that the frame count times 1000 fits an int.
- `Timeline.Margins`: products of sizes are taken not to overflow an int.
- Surface resizing, which forces pixels opaque while copying, the heat map behind the choice of formats, and lossy image quality.
- Layer indices: they are allocated as value + 1 but freed as the index itself, so the pool's condition is not met; buffers use the same pool correctly and add nothing new.
- Writing and reading single UTF-8 code points, and the names and output text of the key log.
- Buffered JSON printing, deletion, copying and editing of JSON trees.
- The nested socket, broadcast sockets, keep-alive and locking; the second parser of the recording encoder.
- Margins written around a frame, scaling and encoding; PNG, JPEG and WebP data.
- Progress of encoder workers beyond the semaphore; client and network handling of jobs.
- Allocation failure everywhere, and the many fixed instruction writers.
