# iceprxy metadata extractor, modelled in Dafny

iceprxy reads an Ogg/Vorbis radio stream over HTTP and pulls the "now
playing" tags out of the Vorbis comment headers it finds in the bytes. It
keeps the latest record in a shared slot and broadcasts each new one to
its listeners. This project models the extractor at its core:

- `ascii.dfy` (module `Ascii`): bytes, `Option`, and the ASCII text
  operations the extractor uses. These are trimming, lower-casing and the
  search for the first `=`.
- `vorbis_scan.dfy` (module `VorbisScan`): `find_vorbis_comment_start`, the
  scanner for packet type 1 and packet type 3 followed by `vorbis`. It is a
  reference function (`CommentStarts`) plus the scanner's loops as methods.
- `vorbis_comment.dfy` (module `VorbisComment`): the little-endian `u32`,
  `parse_length_string` and `parse_comment`, each with an encoder and a
  proved round trip. It also holds the repetition of `parse_comment` used
  by the comment loop (`ParseMany`).
- `stream_meta.dfy` (module `StreamMeta`): the `StreamMetadata` record. It
  appears as a value (`Metadata`) and as a class whose fields
  `update_from_comment` changes in place. The module also covers `new`,
  `display` and `is_complete`.
- `metadata_parse.dfy` (module `MetadataParse`): `parse_vorbis_metadata`.
  It is a reference function (`ParsedMetadata`) and the method that fills a
  fresh `StreamMetadata` in place.
- `stream_step.dfy` (module `StreamStep`): one chunk of `stream_processor`.
  The chunk is appended to the buffer, the header positions are scanned,
  each record found is parsed, and the deduplication rules decide what is
  published. The buffer is then cut back to 16384 bytes. `StreamProcessor`
  holds the state kept across chunks. The deduplication decisions also
  appear as functions on values (`Offer`, `OfferAll`), and the
  publication rules are proved about them.

The clock is a parameter (`now`, in milliseconds). So is the iteration
order of the `other` map: `Display` takes the order of the keys, and the
stream step takes an `Arrangement` that gives the order for a map.

## Model

| member | source | states |
|---|---|---|
| Ascii.Trim | iceprxy/src/main.rs:164-168 | the result has no white space at either end; it is the slice of the input that starts after the leading white space, and only white space follows it |
| Ascii.TrimIdempotent | iceprxy/src/main.rs:164-168 | text without white space at its ends is unchanged by trimming, so trimming twice equals trimming once |
| Ascii.ToLower | iceprxy/src/main.rs:77 | lower-casing keeps the length and maps each byte A-Z to a-z, leaving the others as they are |
| Ascii.IndexOf | iceprxy/src/main.rs:164 | the index of the first occurrence of a byte: it does not occur before it, and the index equals the length exactly when the byte is absent |
| VorbisScan.CommentStarts | iceprxy/src/main.rs:123-146 | the scanner's answer is all type-1 hits and then all type-3 hits; each is the offset of a "vorbis" signature preceded by its packet type, and lies within the buffer |
| VorbisScan.HitsFrom | iceprxy/src/main.rs:134-143 | the offsets, from `from` on, just past a packet-type byte followed by "vorbis"; its properties are stated by `HitsFromSound`, `HitsFromAscending` and `HitsFromComplete` |
| VorbisScan.FindFrom | iceprxy/src/main.rs:136-137 | the search from `start` returns nothing exactly when no pattern occurs from there on; otherwise it returns the first occurrence |
| VorbisScan.PushHits | iceprxy/src/main.rs:134-143 | the inner loop appends to the list, in order, the offset just past the packet-type byte of every occurrence of one pattern, resuming after each hit |
| VorbisScan.FindVorbisCommentStart | iceprxy/src/main.rs:123-146 | the scanner returns exactly `CommentStarts` |
| VorbisScan.HitsFromSound | iceprxy/src/main.rs:136-140 | every reported offset is a real hit past the search start (soundness) |
| VorbisScan.HitsFromAscending | iceprxy/src/main.rs:136-141 | the offsets reported for one packet type are strictly increasing |
| VorbisScan.HitsFromComplete | iceprxy/src/main.rs:136-141 | every occurrence at or after the search start is reported (completeness) |
| VorbisScan.CommentStartsExact | iceprxy/src/main.rs:123-146 | an offset is reported if and only if it is a type-1 or type-3 hit, and each type's hits come in ascending order |
| VorbisComment.DecodeEncodeU32 | iceprxy/src/main.rs:149 | the little-endian decoding of 4 bytes is below 2^32, and encoding it gives back the same bytes |
| VorbisComment.ParseU32 | iceprxy/src/main.rs:149 | `le_u32` fails exactly when fewer than 4 bytes remain; otherwise the input is the encoding of the value followed by the rest |
| VorbisComment.ParseLengthString | iceprxy/src/main.rs:148-152 | it succeeds if and only if 4 + L bytes are available; the string is `input[4..4+L]` and the rest is `input[4+L..]` |
| VorbisComment.LengthStringRoundTrip | iceprxy/src/main.rs:148-152 | parsing an encoded string gives back the string and exactly the bytes that followed it |
| VorbisComment.SplitCommentShape | iceprxy/src/main.rs:160-169 | after the split at the first '=' the key contains no '=', both halves are trimmed, and text without '=' gets an empty value |
| VorbisComment.SplitComment | iceprxy/src/main.rs:160-169 | the key is the trimmed text before the first '=' and the value the trimmed text after it, or the whole trimmed text and an empty value when there is no '='; its properties are stated by `SplitCommentShape` and `SplitCommentRoundTrip` |
| VorbisComment.ParseComment | iceprxy/src/main.rs:154-170 | a length-prefixed string split at its first '='; its properties are stated by `ParseCommentConsumes` and `CommentRoundTrip` |
| VorbisComment.ParseCommentConsumes | iceprxy/src/main.rs:154-170 | `parse_comment` succeeds if and only if 4 + L bytes are available, consumes exactly those, and returns the split of `input[4..4+L]`, whose key has no '=' |
| VorbisComment.SplitCommentRoundTrip | iceprxy/src/main.rs:160-169 | a trimmed key without '=' and a trimmed value, written as `key=value`, split back into the same key and value |
| VorbisComment.CommentRoundTrip | iceprxy/src/main.rs:154-170 | parsing an encoded well-formed comment gives back the comment and exactly the bytes that followed it |
| VorbisComment.ParseCommentConsuming | iceprxy/src/main.rs:154-170 | the bytes left after a comment are always a tail of the input |
| VorbisComment.ParseMany | iceprxy/src/main.rs:189-196 | the comment loop for any item parser: read up to `count` items in order and stop at the first that does not parse; its properties are stated by `ParseManyBounds` and `ParseManyConcat` |
| VorbisComment.ParseComments | iceprxy/src/main.rs:189-196 | the comment loop with `parse_comment` as the item parser; its properties are stated by `ParseCommentsBounds` and `CommentsRoundTrip` |
| VorbisComment.ParseManyBounds | iceprxy/src/main.rs:189-196 | the loop reads at most `count` items and never moves backwards in the input; when it reads fewer than `count` it is because the next item does not parse |
| VorbisComment.ParseCommentsBounds | iceprxy/src/main.rs:189-196 | at most `comment_count` comments are read, and fewer only when the next comment is malformed or truncated |
| VorbisComment.ParseManyConcat | iceprxy/src/main.rs:189-196 | items laid out one after another are read back in order, leaving exactly the trailing bytes |
| VorbisComment.CommentsRoundTrip | iceprxy/src/main.rs:189-196 | a list of encoded well-formed comments parses back to the same list, in order |
| StreamMeta.FieldFor | iceprxy/src/main.rs:77-107 | the key, compared after ASCII lower-casing, addresses the artist field if and only if it is "artist", the title field if and only if it is "title", the album field if and only if it is "album", and the genre field if and only if it is "genre"; any other key addresses `other` under the key as written |
| StreamMeta.KnownNamesAddressTheirFields | iceprxy/src/main.rs:77-101 | the four known names address their own fields |
| StreamMeta.Apply | iceprxy/src/main.rs:75-116 | the addressed field ends up holding the value; the result is true exactly when that field held something else before; an unchanged update returns the record as it was; the update time becomes `now` only when the result is true |
| StreamMeta.Default | iceprxy/src/main.rs:40-52 | the value `new` builds: title "Unknown", every other field empty, the update time `now`, and not complete |
| StreamMeta.ApplyLeavesOtherFields | iceprxy/src/main.rs:75-108 | every field other than the addressed one is unchanged |
| StreamMeta.ApplyIdempotent | iceprxy/src/main.rs:75-116 | applying the same comment again reports no change and leaves the record, update time included, as it was |
| StreamMeta.IsComplete | iceprxy/src/main.rs:118-120 | a record is complete when its title is not "Unknown" or it has an artist; its properties are stated by `CompleteIffMovedFromDefault` and `ApplyCompletes` |
| StreamMeta.CompleteIffMovedFromDefault | iceprxy/src/main.rs:118-120 | a record is complete exactly when its title or its artist differs from a fresh record's; a fresh record is not complete |
| StreamMeta.ApplyCompletes | iceprxy/src/main.rs:75-120 | an artist comment always makes the record complete; after a title comment it is complete exactly when the title is not "Unknown" or an artist is known |
| StreamMeta.JoinContainsParts | iceprxy/src/main.rs:72 | every part occurs in the " \| "-joined text, and the text starts with the first part |
| StreamMeta.Display | iceprxy/src/main.rs:54-73 | the artist, title, album and genre parts, then one `key: value` part per `other` entry in the given key order, joined with " \| "; its properties are stated by `DisplayStartsWithKnownParts`, `DisplayShowsTitle` and `DisplayIgnoresKnownOtherKeys` |
| StreamMeta.JoinAppend | iceprxy/src/main.rs:72 | joining two non-empty lists of parts is joining each and putting the separator between them |
| StreamMeta.DisplayStartsWithKnownParts | iceprxy/src/main.rs:54-73 | the display is the join of the four known parts, followed by the separator and the `other` parts only when there are some; so only that tail depends on the order of the `other` keys |
| StreamMeta.DisplayShowsTitle | iceprxy/src/main.rs:54-73 | the display contains "Title: " followed by the trimmed title, and starts with the artist part when there is an artist and with the title part otherwise |
| StreamMeta.OtherPartsSkipKnown | iceprxy/src/main.rs:67-71 | an `other` entry whose key lower-cases to a known name contributes no part |
| StreamMeta.DisplayIgnoresKnownOtherKeys | iceprxy/src/main.rs:54-73 | adding such an entry to `other` does not change the display string |
| StreamMeta.StreamMetadata.constructor | iceprxy/src/main.rs:40-52 | a new record has title "Unknown", no artist, album or genre, an empty `other` map and the current time |
| StreamMeta.StreamMetadata.UpdateFromComment | iceprxy/src/main.rs:75-116 | the fields after the call and the result are those `Apply` gives for the fields before it |
| MetadataParse.ParseHeader | iceprxy/src/main.rs:177-187 | it succeeds only after the "vorbis" tag, a complete vendor string and a 4-byte comment count |
| MetadataParse.Step | iceprxy/src/main.rs:190-192 | one comment applied to the loop state: the flag becomes true exactly when the flag was true or the comment changes the field it addresses; a comment that changes nothing leaves the record as it was; the addressed field ends up holding the value |
| MetadataParse.ApplyAll | iceprxy/src/main.rs:189-196 | folding the comments: once reported, a change stays reported; the record moves only when a change is reported, and a moved record carries the update time (when the flag is false is stated by `ApplyAllReportsChange`) |
| MetadataParse.ApplyAllReportsChange | iceprxy/src/main.rs:188-196 | the `updated` flag after the loop is true if and only if it was true before or some comment read would change the record as it stood before the loop |
| MetadataParse.ParsedMetadata | iceprxy/src/main.rs:172-203 | a record is returned only after a well-formed header, and it carries the parse time (when nothing is returned is stated by `ParsedMetadataNoneIff`) |
| MetadataParse.ParsedMetadataNoneIff | iceprxy/src/main.rs:172-203 | nothing is returned when the header is malformed; after a well-formed header, nothing is returned if and only if every comment read leaves the field it addresses of a fresh record as it is |
| MetadataParse.ParseVorbisMetadata | iceprxy/src/main.rs:172-203 | the method returns nothing exactly when `ParsedMetadata` does, and otherwise an object holding its record |
| MetadataParse.ApplyCommentsInPlace | iceprxy/src/main.rs:188-196 | the loop leaves the object and the `updated` flag as `ApplyAll` gives for the comments read |
| MetadataParse.NoneWithoutSignature | iceprxy/src/main.rs:177-178 | input that does not start with "vorbis" yields nothing |
| MetadataParse.NoneWhenHeaderTruncated | iceprxy/src/main.rs:181-187 | a truncated vendor string or a missing comment count yields nothing |
| MetadataParse.HeaderRoundTrip | iceprxy/src/main.rs:177-187 | an encoded header prefix parses back to its comment count and exactly the bytes after it |
| MetadataParse.ParsedEncodedHeader | iceprxy/src/main.rs:172-203 | an encoded header yields its comments applied in order to a fresh record, or nothing when none of them changed it, whatever bytes follow |
| MetadataParse.ParsedEncodedHeaderNoneIff | iceprxy/src/main.rs:172-203 | an encoded header with well-formed comments yields nothing if and only if none of its comments changes a fresh record |
| MetadataParse.UnknownTitleAloneYieldsNone | iceprxy/src/main.rs:172-203 | a header whose only comment is `title=Unknown` yields nothing |
| MetadataParse.ArtistYieldsCompleteRecord | iceprxy/src/main.rs:172-203 | a header whose only comment names an artist yields a complete record |
| StreamStep.Elapsed | iceprxy/src/main.rs:279 | the time since the last publication, or 6 s when the clock has gone backwards (`unwrap_or`); used by the interval test of `Offer` |
| StreamStep.Retain | iceprxy/src/main.rs:294-296 | the kept buffer is a tail of the full buffer, of length min(length, 16384) |
| StreamStep.Offer | iceprxy/src/main.rs:267-290 | a record is published if and only if it is complete and either it is the first, or its display is new and 5 s have passed; nothing changes when it is not published; on publication the state records `now`; the seen set is cleared once it exceeds 100 after a later publication, and stays within its limit |
| StreamStep.OfferAll | iceprxy/src/main.rs:265-292 | over a run of records the state changes only when something is published; then it carries the publication time; the seen-set limit is kept; every record published is complete |
| StreamStep.OfferAllAppend | iceprxy/src/main.rs:265-292 | a run can be split anywhere: offering `ms + ns` is offering `ms` and then `ns` |
| StreamStep.FirstEligible | iceprxy/src/main.rs:267-279 | the index of the first record that passes the completeness and novelty tests: none before it does |
| StreamStep.PublishedRecords | iceprxy/src/main.rs:265-292 | one clock reading publishes nothing when fewer than 5 s have passed since the last publication, and otherwise exactly the first eligible record, if there is one |
| StreamStep.FirstCompleteRecordPublished | iceprxy/src/main.rs:271-277 | before any publication the first complete record is published, and only it |
| StreamStep.LaterRecordsNeedNewDisplayAndInterval | iceprxy/src/main.rs:278-284 | after the first publication a record is published only if it is complete, its display was not seen, and at least 5 s have passed |
| StreamStep.OfferAllCandidatesStep | iceprxy/src/main.rs:265-292 | the run over the first i+1 positions is the run over the first i continued with the record at position i |
| StreamStep.OfferRecord | iceprxy/src/main.rs:267-290 | the branch code decides and updates the local state exactly as `Offer` |
| StreamStep.OfferAt | iceprxy/src/main.rs:266-291 | parsing at one position and offering what it finds is the run of `OfferAll` over that record |
| StreamStep.OfferAllAt | iceprxy/src/main.rs:265-292 | the `for pos in positions` loop is the run of `OfferAll` over the records parsed at the positions, in order; it changes nothing unless it publishes, keeps the seen-set limit, and publishes only complete records |
| StreamStep.StreamProcessor.constructor | iceprxy/src/main.rs:253-256 | a reader starts with an empty buffer, an empty seen set, no publication yet and the last output time set to the start time |
| StreamStep.StreamProcessor.Publish | iceprxy/src/main.rs:276-277 | the new state is stored, the last published record becomes the current one, and the published records are appended to the broadcast log |
| StreamStep.StreamProcessor.Step | iceprxy/src/main.rs:260-296 | after a chunk the buffer is the newest min(length, 16384) bytes of the buffer plus the chunk, and a tail of all bytes received; the records published are the run of `OfferAll` over the records parsed at the scanner's positions; only complete records are ever broadcast; the current record is the last broadcast |
| StreamStep.StreamProcessor.StepAt | iceprxy/src/main.rs:260-296 | `Step` once the header positions are known, for any parser that agrees with `parse_vorbis_metadata` and any display function: the records published are the run of `OfferAll` over the records parsed at those positions, and the buffer and the invariant are kept |
| StreamStep.StreamProcessor.Keep | iceprxy/src/main.rs:294-296 | the chunk is added to the bytes received and the buffer becomes the newest min(length, 16384) bytes of the old buffer plus the chunk, still a tail of all bytes received; the deduplication state and the published records are unchanged |

## Left out

- HTTP and SSE: the server, its routes (`get_metadata`, `get_live_metadata`), CORS, keep-alives and `main` are not modelled. The connection to the stream, the retry around `stream_processor` and logging are not modelled either.
- Chunks that fail to read end `stream_processor` with an error; `Step` models only chunks that arrive.
- `String::from_utf8_lossy` is not modelled: keys and values stay raw bytes. `trim` and `to_lowercase` are modelled on ASCII only, so non-ASCII white space is not trimmed and non-ASCII letters are not lower-cased.
- The iteration order of the `other` `HashMap` is unspecified in the program, so it is a parameter: `Display` takes the order of the keys, and `Step` takes an `Arrangement`.
- `StreamStep.StreamProcessor.Step`: the order of the `other` keys, an `Arrangement`, is a function of the map's contents alone. Within one chunk, two records with equal `other` maps therefore always get the same display string. In the program each `HashMap` has its own random hasher state, so two equal maps may iterate in different orders, and a second copy of a record could then pass the novelty test under a new display string. The arrangement is also not required to list each key exactly once. Every property of `Step` is proved for every arrangement.
- The clock is a parameter. `parse_vorbis_metadata` uses one reading for `new` and for every update of a record. `Step` uses one reading per chunk, both for the time of a publication and for the elapsed-time test. The program reads the clock at each of these points. As a result, after a publication in a chunk the elapsed time is 0 for the rest of that chunk, so the model publishes at most one record per chunk.
- `last_update` is a `u64` of milliseconds in the program; here it is unbounded, and the truncating `as u64` cast is not modelled.
- The shared `RwLock` slot and the broadcast channel are the fields `current` and `sent`. Locking, subscribers, lagging receivers and send failures are not modelled.
- `StreamStep.StreamProcessor.Step`: the shared slot is written once per chunk with the last record published, not once per publication. Under a single clock reading a chunk publishes at most one record, so the state after the chunk is the same.
- Serialisation (`serde`, the flattened `other` map in JSON) is not modelled.
- The parser, the display function and the scanner's result are handed to the loop methods as values (`parse`, `key`, `positions`). `Step` fixes them to `parse_vorbis_metadata`, `display` with the given arrangement, and `find_vorbis_comment_start`.
