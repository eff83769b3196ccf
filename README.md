# dltpy message reading, modelled in Dafny

This project models the core of `dltpy/dltfile.py`, the Python front end of pydlt, a reader for
AUTOSAR DLT (Diagnostic Log and Trace) recordings. The model covers:

- **Payload decoding** (`get_value`, `parse_payload`). A verbose payload is a sequence of typed
  items. Each item is decoded at a cursor. Its first present value is taken, probing str, uint,
  sint, float and bool in that order. A string loses its NUL terminator. The result is the list
  of values, or None as soon as one item has no value kind, or an exception.
- **`DltMessage`**, a class whose fields `loadn` fills from a decoded record. It also has the
  memoised `payload` property, `match` against a list of (app, ctx) filters, and the
  `human_friendly_payload` rendering of a single string payload.
- **`DltFile`**, the seekable-file reader. It decodes stored records at the file offset. After
  a failed decode it scans forward for the next `DLT\x01` storage signature. It hands out only
  verbose records that the filter list accepts.
- **`DltReader`**, the stream reader. It feeds an abstract native framer from `readinto` until
  a complete record is buffered. Its `__iter__` skips non-verbose messages.

The module ends by rebinding `DltFile = DltReader` (dltpy/dltfile.py:205-206), so the public
name `DltFile` refers to the stream reader. Both readers are modelled: `FileMode.DltFile` is the
class defined at lines 152-203 and `StreamMode.DltReader` is the class at lines 120-149.

Modules:

- `Base`: Option, bytes, the text of an id.
- `Payload`: items, `get_value`, `parse_payload` and its cursor walk.
- `Messages`: record headers, `loadn`, `strip`, `human_friendly_payload`, and the `Message` class.
- `Filtering`: `match`.
- `FileMode`: resync, the file-mode selection rule and `DltFile`.
- `StreamMode`: the fill-and-retry loop and `DltReader`.

The Kaitai parsers (`PayloadItem.from_io`, `StoredMessage.from_io`) and the native reader are
generated code and a C extension, respectively. Each is a function-typed parameter:
`ItemDecoder`, `StoredDecoder` or `Framer`. A ghost predicate states only what any parser
guarantees: a decoded item or record consumes at least one byte and no more than remain. Each
oracle's `None` means what the calling code makes of it. For `ItemDecoder` it is the exception
`from_io` raises, and it becomes `Raised(offset)` in the parse result. For `StoredDecoder` it is
the exception that `DltFile.get_next_message` catches, which starts the scan for the next
signature. For `Framer` it means that no complete record is buffered yet. UTF-8 decoding of a string
payload is a parameter `Utf8Decoder` in the same way. Every loop is proved equal to a recursive
reference function (`ParseFrom`, `ScanFrom`, `NextFrom`/`AllFrom`, `StreamNext`/`Resume`/
`StreamAll`/`StreamEnd`), and the properties are lemmas about those functions; the methods
without a loop are specified by the functions they apply (`LoadOnto`) or by their cases (the
payload cache, `readinto`).

## Model

| member | source | states |
|---|---|---|
| Base.TextCodes | dltpy/dltfile.py:76-77 | decoding an id to text one code point per byte (exact for ASCII ids) keeps its length and gives each character the code of its byte |
| Payload.FirstPresentIsFirst | dltpy/dltfile.py:34-37 | the probe returns None iff every kind is absent; otherwise it returns a present kind preceded only by absent ones |
| Payload.GetValueProbesInOrder | dltpy/dltfile.py:33-37 | `get_value` is None iff the item has none of str, uint, sint, float, bool; otherwise it is the first present kind in that order |
| Payload.ItemValueCases | dltpy/dltfile.py:44-56 | one loop step: no kind stops the parse; a string-flagged item is emitted iff its value is string data ending in NUL, and then as that data minus the NUL; any other value is emitted unchanged and never raises |
| Payload.StringItemStripsTerminator | dltpy/dltfile.py:52-55 | a string item carrying `s + [0]` yields exactly `s`, one byte shorter |
| Payload.StringItemNeedsTerminator | dltpy/dltfile.py:53-55 | a string item is emitted iff its data is non-empty and ends in NUL; otherwise the assertion (or the index on empty data) raises |
| Payload.ParsePayload | dltpy/dltfile.py:39-57 | the cursor loop returns exactly the reference parse: the values in order, None at a kindless item, or the exception at the failing offset |
| Payload.WalkVisits | dltpy/dltfile.py:42-44 | the cursor starts at 0, visits only in-payload offsets where an item decodes, each directly after the previous item's bytes, and a complete walk ends exactly at the payload's end |
| Payload.ParseFollowsWalk | dltpy/dltfile.py:42-57 | all-or-nothing: the parse gives a list iff the walk reaches the end and every item yields a value, and the list then has one value per visited item, in cursor order |
| Payload.NoValueAtFirstKindless | dltpy/dltfile.py:45-48 | when the parse gives None, the offset reported is that of the first visited item without a value kind |
| Payload.FirstKindlessGivesNoValue | dltpy/dltfile.py:45-48 | conversely, when some visited item has no value kind and every item before it yields a value, the parse gives None with that item's offset |
| Payload.NeverPartial | dltpy/dltfile.py:46-48 | a kindless item anywhere along the walk means the result is not a list, so no partial list is ever returned |
| Messages.RemoveNulDropsExactlyNuls | dltpy/dltfile.py:76-77 | `replace(b'\0', b'')` leaves no NUL and keeps the count of every other byte value |
| Messages.RemoveNulAppend | dltpy/dltfile.py:76-77 | NUL removal distributes over concatenation, so the other bytes keep their order |
| Messages.RemoveNulKeepsId | dltpy/dltfile.py:76-77 | a NUL-free id comes through unchanged, including when it is NUL-padded |
| Messages.LoadFields | dltpy/dltfile.py:60-88 | after construction: app, ctx and verbose are set iff there is an extended header (verbose is the header's flag); ids contain no NUL; ts is set iff the timestamp is present and non-zero; payload and message bytes are the record's |
| Messages.LoadVerbose | dltpy/dltfile.py:78 | a message is verbose iff its record has an extended header with the verbose flag set |
| Messages.LStrip | dltpy/dltfile.py:114 | the result is a suffix of the input; everything cut is whitespace; it does not start with whitespace |
| Messages.RStrip | dltpy/dltfile.py:114 | the result is a prefix of the input; everything cut is whitespace; it does not end with whitespace |
| Messages.Strip | dltpy/dltfile.py:114 | `str.strip()` returns a contiguous slice; everything before and after it is whitespace; the slice has no whitespace at either end |
| Messages.StripClean | dltpy/dltfile.py:114 | stripping text with no whitespace at either end returns it unchanged |
| Messages.HumanFriendly | dltpy/dltfile.py:105-117 | any payload other than a list with exactly one bytes value is returned unchanged (a None stays None, an exception passes through); for the single value the result is text iff it decodes as UTF-8, the undecodable case keeps the bytes, and rendered text has no whitespace at either end |
| Messages.HumanFriendlyText | dltpy/dltfile.py:110-114 | decoded text longer than one character loses exactly one trailing NUL when it ends in one and is otherwise kept; the rendering is that text stripped (by `Strip`'s contract, the slice left after cutting whitespace, and only whitespace, at both ends); text with no trailing NUL and no whitespace at either end comes back unchanged |
| Messages.Message.constructor | dltpy/dltfile.py:60-69 | a new message holds exactly the attributes `loadn` derives from the record, with an empty payload cache |
| Messages.Message.Loadn | dltpy/dltfile.py:71-88 | `loadn` overwrites the ids and verbose flag only when there is an extended header, and ts only for a non-zero timestamp; it always sets date, payload and message bytes; other fields are unchanged |
| Messages.Message.Payload | dltpy/dltfile.py:99-103 | a cached list is returned without parsing; otherwise the payload is parsed once and cached only when the result is a list, so a None result is re-parsed on the next access |
| Messages.Message.HumanFriendlyPayload | dltpy/dltfile.py:105-117 | the rendering of the cached or freshly parsed payload; a cached list stays cached with no parse, otherwise one parse whose result is cached exactly when it is a list |
| Messages.PayloadTwice | dltpy/dltfile.py:99-103 | two accesses in a row return the same result; a list costs at most one parse and stays cached; a None or an exception costs two parses and leaves the cache empty |
| Filtering.Match | dltpy/dltfile.py:93-97 | `match` is true iff some filter pair accepts (app, ctx), a None field accepting anything; so an empty list gives false |
| Filtering.ExactPairMatchesOnlyItself | dltpy/dltfile.py:93-97 | with fully specified pairs, a message matches iff its (app, ctx) is one of the pairs |
| Filtering.MatchMonotone | dltpy/dltfile.py:93-97 | adding pairs never loses a match, and a (None, None) pair matches everything |
| FileMode.ScanFrom | dltpy/dltfile.py:172-180 | the scan stops at the first offset holding the signature, or at the file length when there is none |
| FileMode.ResyncIsFirstSignature | dltpy/dltfile.py:169-181 | after a failure at s, decoding resumes at the least offset after s where the signature starts, or at the file length; that offset is unique, always past s and never beyond the end |
| FileMode.ResyncNearEnd | dltpy/dltfile.py:171-180 | with at most three bytes after the failed offset (fewer than five from it on), recovery goes to the file length |
| FileMode.DltFile.ScanSignature | dltpy/dltfile.py:171-180 | the byte-by-byte recovery loop (read four bytes, compare with `DLT\x01`) returns exactly the resync offset |
| FileMode.NextFrom | dltpy/dltfile.py:163-196 | the offset never moves back and stays within the file; None only at the end of the file; a returned record is past the start offset and passes selection |
| FileMode.KeepsLoaded | dltpy/dltfile.py:188-194 | the reader's rule, `Selects` on the record's headers, is the test the source makes on the message built from it: verbose, and accepted by `match` when a filter list is given |
| FileMode.EmptyFilterList | dltpy/dltfile.py:189-192 | in file mode, an empty filter list rejects every record, while no filter list keeps exactly those whose message is verbose |
| FileMode.AllFromKeepsSelected | dltpy/dltfile.py:165-203 | iterating a file yields exactly the decodable records along the resync path that pass selection, in file order; nothing selected is lost and nothing else appears |
| FileMode.DltFile.Accept | dltpy/dltfile.py:185-194 | a decoded record moves the offset past its bytes; the message built from it is returned exactly when the reference hands that record out, and dropped when the reference goes on from the next offset |
| FileMode.DltFile.Round | dltpy/dltfile.py:165-194 | one round of the loop always moves forward; a dropped round leaves the reference result unchanged, a returned message is the reference record's, at the reference offset |
| FileMode.DltFile.GetNextMessage | dltpy/dltfile.py:163-196 | the decode/resync/select loop leaves the file at the reference offset and returns a fresh message built from the reference record, or None exactly when the reference reaches the end |
| FileMode.DltFile.Iterate | dltpy/dltfile.py:198-203 | `__iter__` yields one message per record of the reference iteration, in order, and leaves the file at its end |
| StreamMode.StreamNext | dltpy/dltfile.py:128-139 | returning a record always consumes input or buffered bytes; None leaves a buffer holding no complete record |
| StreamMode.StreamNextSome | dltpy/dltfile.py:128-139 | a returned record is the frame of the first buffer, built before the first zero-byte read, that holds one; the buffer left is that buffer without the frame's bytes, and the reads left are those after the ones taken |
| StreamMode.StreamNextNone | dltpy/dltfile.py:129-135 | `get_next_message` returns None iff no buffer built before the first zero-byte read holds a complete record; the buffer then holds every byte read up to that point |
| StreamMode.Resume | dltpy/dltfile.py:142-149 | one generator resumption yields only a verbose record and always makes progress; when it ends the generator, the buffer holds no complete record |
| StreamMode.StreamAllStep | dltpy/dltfile.py:143-149 | each `get_next_message` inside `__iter__` either ends the iteration (None), is skipped (not verbose) or is yielded next (verbose) |
| StreamMode.StreamAllVerbose | dltpy/dltfile.py:147-149 | every message stream iteration yields is verbose |
| StreamMode.StreamEnd | dltpy/dltfile.py:142-146 | the state in which stream iteration stops: the generator has ended there and the buffer holds no complete record |
| StreamMode.Advance | dltpy/dltfile.py:143-149 | one resumption either ends the iteration, having yielded every reference record and stopped at the reference end state, or yields the next reference record with the same end ahead |
| StreamMode.DltReader.Pull | dltpy/dltfile.py:143-149 | one `next()` of the generator, as its consumer sees it: either the iteration stops in the reference end state, or exactly one message is appended, built from the record of the reference resumption, which also gives the new buffer and reads, with progress made |
| StreamMode.DltReader.ReadInto | dltpy/dltfile.py:132 | `readinto` returns the next read of the source, or zero bytes once it is exhausted |
| StreamMode.DltReader.GetNextMessage | dltpy/dltfile.py:128-139 | the fill-and-retry loop ends in the reference state and returns a fresh message built from the framed record, or None exactly when a zero-byte read comes first |
| StreamMode.DltReader.Next | dltpy/dltfile.py:142-149 | one `next()` of the generator returns the next verbose message of the reference, or None when the stream ends |
| StreamMode.DltReader.Iterate | dltpy/dltfile.py:142-149 | `__iter__` yields one message per record of the reference stream iteration, in order, and leaves the native buffer and the source exactly where the reference iteration ends, with no complete record buffered |

## Left out

- Floating point: `ts` is kept as the raw tick count the source scales by 1e-4, and `date` as the pair (seconds, sub-second part) the source adds as a float. The float payload kind is carried as a `real`.
- The generated Kaitai parsers and the native reader are not part of this model. They are oracles constrained only by the consumed width (`DecoderOk`, `StoredOk`, `FramerOk`). This includes the bit layout of payload items and headers, and the native reader's own filtering and `expect_storage_header` switch, which are handed to it and live in `Framer`.
- File and stream I/O: the file is a fixed byte sequence with an offset; the stream is a list of the chunks successive `readinto` calls return. The native buffer's capacity and its `get_buffer`/`update_buffer` handshake are folded into appending a chunk.
- `capture_raw` and the `raw_data` argument: `loadn` overwrites `_raw_data` with the record's message bytes anyway, so the file reader's capture path only affects an attribute that is then replaced.
- Logging calls, `hex` and `__str__`: they produce no state the rest of the code reads.
- Base.TextCodes (and Base.Text): ids are decoded byte by byte to the code point of the same value (Latin-1). This agrees with `.decode()` only for ASCII ids: a valid non-ASCII UTF-8 id decodes in Python to different, shorter text, and the UnicodeDecodeError that `.decode()` raises on a non-UTF-8 id is not modelled.
- Messages.Message.Payload: an exception from parsing is returned as `Raised`, and the cache is left as it was. Python would propagate it instead.
- Payload.ParsePayload: the `assert value[-1] == 0` check is modelled as always enabled; under `python -O` it would be skipped.
- FileMode.NextFrom: when recovery finds no signature, the file offset is taken to be the file length. When the failure is at the last byte the scan loop does not run, and the model relies on the failed parse having consumed that byte.
- The two `__iter__` generators are modelled as methods that collect every yielded message into a sequence: `DltReader.Iterate`, built on `DltReader.Next` (one resumption), and `DltFile.Iterate`, built on `DltFile.GetNextMessage`. Laziness and interleaving with the caller are not captured.
- Messages.Message.Payload: the source returns the cached list object itself, so a caller that mutates it changes what later accesses return. The model's cache is a value, so this aliasing is not captured.
- FileMode.EmptyFilterList follows the code: in file mode an empty filter list (as opposed to None) rejects every message, because `match([])` is false.
