# Router panel algorithms

A Dafny model of the algorithms inside the web panel of a router firmware image, with proofs of what
they compute and keep. The panel is JavaScript; JavaScript numbers in bit operations are modelled as
integers that every operator first reduces to 32 bits (`JsWord.dfy`), and strings whose character codes
matter are sequences of UTF-16 code units (`JsText.dfy`).

| file | what it models |
|---|---|
| `Basics.dfy`, `JsWord.dfy`, `JsText.dfy` | what the others share; JavaScript's 32-bit operators and UTF-16 strings |
| `Rfc1321.dfy`, `Md5.dfy`, `Md5Strings.dfy` | MD5: the standard in its table-driven form, and the panel's unrolled rounds on signed words with 16-bit half adds and in-place padding |
| `WordCodecs.dfy`, `Base64.dfy`, `Md5Digest.dfy` | the word/string/hexadecimal/base-64 codecs, the digest entry points and HMAC-MD5 |
| `UploadProtocol.dfy`, `UploadClicks.dfy`, `Uploaders.dfy` | the chunked WebDAV upload as a state machine over clicks and browser replies, what each click does to a whole transfer, and the two uploaders as classes that follow the machine |
| `NameCodec.dfy`, `Navigation.dfy` | the two-phase name decoder, and the folder path driven by enter and back |
| `Reorder.dfy` | the size and date orders of a listing, rendered by match-and-blank loops |
| `HeaderLayout.dfy`, `Paging.dfy` | header cells over an occupancy matrix; filtering and paging of rows |
| `Dhcp.dfy`, `FixedIp.dfy` | the LAN/DHCP form decided on strings of binary digits, and the fixed-address list with its checks and scans |
| `XmlTree.dfy` | path list to XML tree |
| `StkMenu.dfy` | the UCS2 hexadecimal codec and the SIM-toolkit menu parser |
| `NcCounter.dfy` | the request counter of the digest headers |
| `IframeUpload.dfy` | the callbacks of an iframe upload |

Classes carry the source's mutable fields; their methods are proved against functions of the old state
(`Step`, `Upload`, `Cb`, `Scraped`, ...), and the laws are lemmas about those functions over every input
and every run.

## What turned out differently from what one would expect

Where a law is false of the code, the code is modelled as it is and a lemma gives the exact condition.

- The name decoder knows only one- and three-byte groups: it undoes `encodeURIComponent` on exactly the
  strings over U+0000-U+007F, U+0800-U+D7FF and U+E000-U+FFFF, with the digits of the escapes in upper or in lower
  case (`NameCodec.DecoderUndoesEncoder`). Text that mixes the cases is read right exactly when no group with `%E`
  comes before one with `%e` (`NameCodec.DecodeSpelledIff`, `NameCodec.UpperBeforeLowerSlips`), and a group cut
  short leaves all escapes before it escaped (`NameCodec.TruncatedGroupCuts`).
- The menu parser reads one length byte per item. An encoder that follows the two-byte length form of
  section 7.1.2 of ETSI TS 101 220 from 128 on is, with an alpha identifier of up to 128 bytes, undone exactly
  when no item is longer than 62 units (`StkMenu.StandardMenuIff`). A longer alpha identifier is misread
  (`StkMenu.LongAlphaMisread`), so 128 bytes is the exact bound (`StkMenu.StandardAlphaIff`). With one length byte
  for the alpha identifier and every item the encoder is undone up to 126 units (`StkMenu.MenuUndoesEncoder`).
- With pages of one row, asking for the page that holds the last row shows it but stores the page after it;
  this is the only way in which a scrape leaves the table inconsistent (`Paging.ScrapeConsistent`). Previous never
  leaves that page again (`Paging.OneRowPageStays`; `Paging.NextThenPrevious` says when next and previous cancel).
- Header cells can overlap when a wide cell does not fit the free run it starts in (`HeaderLayout.DisjointIffFits`).
  A header has only one layout (`HeaderLayout.LaidUnique`), so the three-cell header of
  `HeaderLayout.WideCellRecorded` is recorded with an overlap.
- The mask fields are never checked as octets, nor as numbers: `511.0.0.0` is accepted (`Dhcp.WideMaskSlips`),
  and an empty field counts as `00000NaN`, so four empty fields pass as /0 and `255.255.255.` passes as /24
  (`Dhcp.EmptyFieldsSlip`); so does `255.255.255.-1` (`Dhcp.NegativeFieldSlips`). Whatever is typed, an accepted mask is a /k mask exactly when its fields are octets
  and not all zero (`Dhcp.AcceptedMaskIsPrefixIff`; zeros typed as `00` pass the comparison with `0.0.0.0`).
  With more than 32 leading ones, as in `511.511.511.511`, the form counts down from a negative number and never
  reaches 0 (`Dhcp.LongMaskHangs`, `Dhcp.CountdownEndsIff`, exact condition in `Dhcp.ValidateLanIPAndDHCPConfig`).
- The fixed-address scan compares the MAC as typed with MACs stored in lower case, so a MAC in upper case is
  accepted twice (`FixedIp.UpperCaseMacSlips`, exact condition in `FixedIp.MacsStayDistinctIff`).
- A leaf goes below the first element with its parent's name, wherever that is: it lands on its own path exactly
  when that element is the one on the path (`XmlTree.EntryLandsIff`).
- The shared uploader does not reset its offsets on select: a file chosen again after a pause skips what was
  sent before (`UploadProtocol.SharedReselectSkips`, exact condition in `UploadProtocol.SelectStartsAtZero`).
- A click that starts a chunk while one is outstanding: in whichever order read and reply end, the next PUT is the
  chunk that is due exactly when the slice being read is empty, the file is empty, or only a reply is missing and
  is ignored because the overwrite dialog was confirmed while paused (`UploadProtocol.EarlyClickMislabelsIff`).
- The hexadecimal counter cannot be read back from 2^31 on, where `>>` turns it negative (`NcCounter.NcReadsBack`).
  A login sends the counter without advancing it, so the values sent are distinct exactly when nothing follows a
  login (`NcCounter.NcsIncreaseIff`).
- A caller's `abort()` after the end of an iframe upload fires error and complete again. Over all event sequences
  complete fires at most once exactly when the caller never aborts a finished upload, and success and error never
  both fire exactly when it never aborts after a success (`IframeUpload.CompletesAtMostOnceIff`,
  `IframeUpload.NeverBothIff`).

## Model

| member | source | states |
|---|---|---|
| Md5.SafeAddIs | extracted_fs/www/js/library/all.js:1083-1087 | `safe_add` on 16-bit halves is addition modulo 2^32, for all integers |
| Md5.BitRolIs | extracted_fs/www/js/library/all.js:1089-1091 | `bit_rol` on a signed number is the left rotation of its 32-bit pattern, as s one-place rotations |
| Md5.CmnIs | extracted_fs/www/js/library/all.js:1048-1050 | `md5_cmn` is the operation of section 3.4 of RFC 1321 on bit patterns, for operands of any sign |
| Md5.FfIs | extracted_fs/www/js/library/all.js:1052-1054 | `md5_ff` applies the operation with the auxiliary function F |
| Md5.GgIs | extracted_fs/www/js/library/all.js:1056-1058 | `md5_gg` applies the operation with G |
| Md5.HhIs | extracted_fs/www/js/library/all.js:1060-1062 | `md5_hh` applies the operation with H |
| Md5.IiIs | extracted_fs/www/js/library/all.js:1064-1066 | `md5_ii` applies the operation with I |
| Md5.LineIsStep | extracted_fs/www/js/library/all.js:976-1039 | one unrolled line with its rotated argument names is one table-driven step of the standard |
| Md5.FourLines | extracted_fs/www/js/library/all.js:976-1039 | four consecutive lines are four table-driven steps, after which the registers are back in place |
| Md5.Round1 | extracted_fs/www/js/library/all.js:976-991 | the first 16 lines, with their literal shifts, indices and signed constants, are steps 1 to 16 of RFC 1321 |
| Md5.Round2 | extracted_fs/www/js/library/all.js:992-1007 | lines 17 to 32 are steps 17 to 32 |
| Md5.Round3 | extracted_fs/www/js/library/all.js:1008-1023 | lines 33 to 48 are steps 33 to 48 |
| Md5.Round4 | extracted_fs/www/js/library/all.js:1024-1039 | lines 49 to 64 are steps 49 to 64 |
| Md5Strings.CoreMd5 | extracted_fs/www/js/library/all.js:964-1046 | the two padding writes and the loop compute the chain of RFC 1321 compressions over the padded array, a missing word acting as 0 |
| Md5Strings.PadWords | extracted_fs/www/js/library/all.js:965-966 | word by word, the standard padding is the message with 0x80 appended and the bit length in one later word that nothing else touches |
| Md5Strings.PaddedHolds | extracted_fs/www/js/library/all.js:965-966 | on an array that holds m the two writes leave an array that spells RFC 1321 padding of m, one word short of whole blocks, in the same number of blocks |
| Rfc1321.PadLength | extracted_fs/www/js/library/all.js:966 | the padded message is the least number of 64-byte blocks with room for the length |
| Md5Strings.ChainIsBlocks | extracted_fs/www/js/library/all.js:971-1044 | chaining over an array that spells m gives the registers of the standard after the same blocks of m |
| Md5Digest.CoreMd5IsDigest | extracted_fs/www/js/library/all.js:964-1046 | on an array that holds m, core_md5 given its bit length returns an array that holds the RFC 1321 digest of m |
| Md5Digest.HexMd5 | extracted_fs/www/js/library/all.js:936-938 | `hex_md5(s)` is the lower-case hexadecimal digest of the bytes `charCode & 255` |
| Md5Digest.B64Md5 | extracted_fs/www/js/library/all.js:940-942 | `b64_md5(s)` has 22 digits that decode (section 4 of RFC 4648) to the digest |
| Md5Digest.StrMd5 | extracted_fs/www/js/library/all.js:944-946 | `str_md5(s)` is the 16 digest bytes |
| Md5Digest.HoldsLength | extracted_fs/www/js/library/all.js:1070 | `bkey.length > 16` holds exactly when the key is longer than 64 bytes |
| Md5Digest.PadEntry | extracted_fs/www/js/library/all.js:1075-1078 | an entry of ipad or opad is that word of the 64-byte key block with every byte XORed with 0x36 or 0x5c |
| Md5Digest.XorWord | extracted_fs/www/js/library/all.js:1076-1077 | XOR with the repeated-byte word constant is XOR byte by byte |
| Md5Digest.CoreHmacMd5 | extracted_fs/www/js/library/all.js:1068-1081 | the result holds HMAC of section 2 of RFC 2104 with B = 64, for all keys and data within the length bound |
| Md5Digest.HexHmacMd5 | extracted_fs/www/js/library/all.js:948-950 | the hexadecimal HMAC of the byte strings |
| Md5Digest.B64HmacMd5 | extracted_fs/www/js/library/all.js:952-954 | 22 digits that decode to the HMAC |
| Md5Digest.StrHmacMd5 | extracted_fs/www/js/library/all.js:956-958 | the 16 bytes of the HMAC |
| Md5Strings.AppendByte | extracted_fs/www/js/library/all.js:1096-1098 | ORing a byte in at the next place turns an array that spells m into one that spells m followed by the byte |
| WordCodecs.Str2binl | extracted_fs/www/js/library/all.js:1093-1100 | the array has ceil(n/4) words and spells the bytes `charCode & 255`, low-order byte first |
| WordCodecs.HoldsBytes | extracted_fs/www/js/library/all.js:1093-1109 | an array that holds m spells m filled up with zero bytes to a multiple of 4, so `binl2str(str2binl(s))` is s zero-padded |
| WordCodecs.Binl2str | extracted_fs/www/js/library/all.js:1102-1109 | the string is exactly the bytes of the array, whatever the sign of its words |
| WordCodecs.ReadBits | extracted_fs/www/js/library/all.js:1115-1116 | `(v >> k) & (2^n - 1)` reads n bits of the 32-bit pattern at bit k, whatever the sign |
| WordCodecs.Binl2hex | extracted_fs/www/js/library/all.js:1111-1119 | the string prints the bytes of the array as two digits each, high digit first |
| WordCodecs.HexRoundTrip | extracted_fs/www/js/library/all.js:1111-1119 | reading the printed digits back gives the bytes |
| WordCodecs.HexInjective | extracted_fs/www/js/library/all.js:1111-1119 | two arrays print alike only when they have the same words as bit patterns |
| Base64.TripletAt | extracted_fs/www/js/library/all.js:1125-1126 | the triplet is three consecutive bytes of the array, missing ones being 0 |
| Base64.DigitCount | extracted_fs/www/js/library/all.js:1128 | the test on bit positions drops exactly the digits that carry no bit of the array |
| Base64.Binl2b64 | extracted_fs/www/js/library/all.js:1121-1136 | the digits are those of section 4 of RFC 4648 for the bytes of the array, padding omitted |
| Base64.EncodeLength | extracted_fs/www/js/library/all.js:1121-1136 | n bytes take ceil(8n/6) digits, hence L words ceil(32L/6) |
| Base64.Base64RoundTrip | extracted_fs/www/js/library/all.js:1121-1136 | the digits decode to the same bytes |
| UploadProtocol.TilingJoins | extracted_fs/www/js/panel/router/webdavobj.js:1714-1764 | the first n chunks of a file join to its first min(n * chunk, size) bytes |
| UploadProtocol.TilingIsConsecutive | extracted_fs/www/js/panel/router/webdavobj.js:1726-1743 | the chunks are consecutive half-open ranges from 0, inside the file, each one chunk long or ending the file, with the bytes of its range, and empty exactly past the end |
| UploadProtocol.StepKeepsInv | extracted_fs/www/js/panel/router/webdavobj.js:1554-1764 | every allowed event keeps: at most one chunk outstanding, the PUTs sent are the first chunks of the file, `ToSize` is where they end |
| UploadProtocol.RunKeepsInv | extracted_fs/www/js/panel/router/webdavobj.js:1554-1764 | so does every allowed run |
| UploadProtocol.EveryRunTilesTheFile | extracted_fs/www/js/panel/router/webdavobj.js:1554-1764 | in every allowed run of either uploader the PUTs of each transfer are consecutive ranges from 0 joining to a prefix of the file, to the whole file when it completed, and `ToSize <= size` |
| UploadProtocol.IdleIsReset | extracted_fs/www/js/panel/webdavobj_shared.js:1754-1835 | in every allowed run both offsets are 0 while nothing of the current transfer has been sent or is outstanding |
| UploadProtocol.EverySelectionStartsAtZero | extracted_fs/www/js/panel/webdavobj_shared.js:1735-1751 | so in every allowed run, whose selections come only while nothing has been sent, each selection starts at 0 although it resets nothing |
| UploadProtocol.ExactTestSuffices | extracted_fs/www/js/panel/webdavobj_shared.js:1795 | in every allowed run the offset is at most the size when a reply arrives, so the `==` test is reached exactly when a `>=` test would be |
| UploadProtocol.RepliesQueueNoEmptyChunk | extracted_fs/www/js/panel/router/webdavobj.js:1635-1712 | after a reply a new chunk is non-empty and starts only when neither paused nor cancelled and bytes are missing |
| UploadProtocol.EmptySliceIff | extracted_fs/www/js/panel/router/webdavobj.js:1554-1764 | an allowed event queues an empty slice exactly when it selects an empty file in the shared uploader or starts a chunk by hand with no byte left |
| UploadProtocol.RoundsFinish | extracted_fs/www/js/panel/webdavobj_shared.js:1757-1835 | without clicks, one read and one reply per missing chunk end the transfer with both offsets back at 0 |
| UploadProtocol.UnpausedUploadFinishes | extracted_fs/www/js/panel/webdavobj_shared.js:1735-1907 | from a selection without clicks the whole file goes up in exactly ceil(size / chunk) non-empty PUTs, for the `==` and the `>=` end test |
| UploadProtocol.ClickFreeRunsAreRounds | extracted_fs/www/js/panel/webdavobj_shared.js:1757-1835 | every run without clicks is a beginning of that one, so it has at most two events for each missing chunk |
| UploadProtocol.EarlyClickMislabelsIff | extracted_fs/www/js/panel/router/webdavobj.js:1554-1711 | confirm, continue or cancel with a chunk outstanding: in either order of read and reply the next PUT is the chunk that is due exactly when the slice being read is empty, the file is empty, or only a reply is missing and is ignored because the dialog was confirmed while paused |
| UploadProtocol.ReadingWhenClicked | extracted_fs/www/js/panel/router/webdavobj.js:1554-1764 | clicked while a slice is read: its PUT has the bytes that are due, under their range exactly when it is empty |
| UploadProtocol.ReplyMissingWhenClicked | extracted_fs/www/js/panel/router/webdavobj.js:1554-1711 | clicked while only a reply is missing: the next PUT is due when the read ends first; when the reply comes first, exactly for an empty file or when it is ignored |
| UploadProtocol.ContinueTooEarlyMislabels | extracted_fs/www/js/panel/router/webdavobj.js:1554-1565 | outside the domain: continue with a chunk outstanding sends chunk 0 under the range of chunk 1 |
| UploadProtocol.ReplyFirstMislabels | extracted_fs/www/js/panel/router/webdavobj.js:1635-1711 | outside the domain: continue with only a reply missing, and the reply first, sends bytes 4096 to 8192 under a range from 8192 |
| UploadProtocol.SelectStartsAtZero | extracted_fs/www/js/panel/webdavobj_shared.js:1735-1751 | a selection starts at offset 0 exactly when it resets the offsets or they are 0, as they are after every finished transfer |
| UploadProtocol.SharedReselectSkips | extracted_fs/www/js/panel/webdavobj_shared.js:1735-1751 | the shared uploader, paused after one chunk and given a file again, starts at 65536 |
| UploadClicks.CancelEndsTransfer | extracted_fs/www/js/panel/router/webdavobj.js:1567-1672 | after a cancel while a chunk is outstanding or while paused, every run without clicks queues no slice beyond the outstanding one or the one that the cancel starts, and once all is answered both offsets are 0 and the transfer is filed as cancelled with exactly the first chunks of the file |
| UploadClicks.PauseHolds | extracted_fs/www/js/panel/router/webdavobj.js:1554-1680 | while paused every run without clicks queues nothing beyond the outstanding chunk, files nothing and keeps the offset where that chunk ends |
| UploadClicks.PausedUploadFinishes | extracted_fs/www/js/panel/router/webdavobj.js:1554-1711 | pause, the outstanding answers, continue and no further click complete the transfer with the chunks of an upload without a pause, and one empty PUT more exactly when the pause came during the last chunk |
| UploadClicks.SelectionOutcome | extracted_fs/www/js/panel/router/webdavobj.js:1578-1633 | a selection starts a chunk exactly when a file is chosen and, in the router panel, it is not empty and its name is neither too long nor taken; it asks exactly when only the name is taken |
| UploadClicks.ConfirmOutcome | extracted_fs/www/js/panel/router/webdavobj.js:1612-1621 | OK starts one chunk and can be given only once |
| UploadClicks.ConfirmedUploadFinishes | extracted_fs/www/js/panel/router/webdavobj.js:1578-1711 | a selection whose name is taken, then OK, then no click: the whole file goes up |
| UploadClicks.RouterSelectsAfresh | extracted_fs/www/js/panel/router/webdavobj.js:1578-1633 | in any state, the first slice of a file selected in the router panel is its first 4096 bytes |
| Uploaders.RouterUploader.Upload | extracted_fs/www/js/panel/router/webdavobj.js:1721-1764 | advances the offsets by one chunk, clamped to the file, and starts reading exactly that slice; nothing without a file |
| Uploaders.RouterUploader.UploadPause | extracted_fs/www/js/panel/router/webdavobj.js:1554-1565 | first click pauses, second continues with a new chunk |
| Uploaders.RouterUploader.UploadCancel | extracted_fs/www/js/panel/router/webdavobj.js:1567-1572 | sets the flag whether paused or not, and when paused starts one more chunk so that a reply will see it |
| Uploaders.RouterUploader.UploadChange | extracted_fs/www/js/panel/router/webdavobj.js:1578-1633 | clears the flags and offsets, refuses an empty file or a name over 128 characters, asks before overwriting, else starts |
| Uploaders.RouterUploader.ConfirmClick | extracted_fs/www/js/panel/router/webdavobj.js:1612-1621 | the OK button of the overwrite dialog starts the upload |
| Uploaders.RouterUploader.UploadOndoing | extracted_fs/www/js/panel/router/webdavobj.js:1635-1711 | the reply handler: close as cancelled, stop when paused, close as complete at the end, else the next chunk |
| Uploaders.RouterUploader.EndTransfer | extracted_fs/www/js/panel/router/webdavobj.js:1640-1673 | both offsets return to 0 and the log of the transfer is filed |
| Uploaders.RouterUploader.OnLoadEnd | extracted_fs/www/js/panel/router/webdavobj.js:1744-1749 | the read bytes go out under the offsets that are current when reading ends |
| Uploaders.SharedUploader.Upload | extracted_fs/www/js/panel/webdavobj_shared.js:1838-1907 | advances the offsets by one chunk, clamped to the file, and starts reading exactly that slice; nothing without a file |
| Uploaders.SharedUploader.UploadPause | extracted_fs/www/js/panel/webdavobj_shared.js:1708-1724 | first click pauses, second continues with a new chunk |
| Uploaders.SharedUploader.UploadCancel | extracted_fs/www/js/panel/webdavobj_shared.js:1726-1733 | sets the flag whether paused or not, and when paused starts one more chunk so that a reply will see it |
| Uploaders.SharedUploader.UploadChange | extracted_fs/www/js/panel/webdavobj_shared.js:1735-1751 | clears the flags but not the offsets and starts when a file was chosen |
| Uploaders.SharedUploader.UploadOndoing | extracted_fs/www/js/panel/webdavobj_shared.js:1757-1835 | the reply handler: close as cancelled, stop when paused, close as complete at the end, else the next chunk |
| Uploaders.SharedUploader.EndTransfer | extracted_fs/www/js/panel/webdavobj_shared.js:1765-1798 | both offsets return to 0 and the log of the transfer is filed |
| Uploaders.SharedUploader.OnLoadEnd | extracted_fs/www/js/panel/webdavobj_shared.js:1876-1881 | the read bytes go out under the offsets that are current when reading ends |
| Uploaders.RouterUploader.OnPutSuccess | extracted_fs/www/js/base/ajax_calls.js:505-507 | a successful PUT runs the reply handler |
| Uploaders.SharedUploader.OnPutSuccess | extracted_fs/www/js/base/ajax_calls.js:769-771 | a successful PUT runs the reply handler |
| NameCodec.Utf8ToSymbolChar | extracted_fs/www/js/panel/router/webdavobj.js:241-259 | the second decoder loop ends on every string and computes the recursive reading of its escapes, cutting at a broken one |
| NameCodec.Utf8ToChar | extracted_fs/www/js/panel/router/webdavobj.js:261-293 | the first decoder loop ends on every string: any `%e` before any `%E`, nine characters to a group, cut at a broken one, rest to the second phase |
| NameCodec.ChineseReadsTri | extracted_fs/www/js/panel/router/webdavobj.js:224-233 | masks and shifts read the three-byte group of every unit from U+0800 on, its digits in either case, back as that unit (section 3 of RFC 3629) |
| NameCodec.SymbolReadsEscape | extracted_fs/www/js/panel/router/webdavobj.js:235-239 | the second phase reads every escape, its digits in either case, back as its byte |
| NameCodec.TriplesOfTokens | extracted_fs/www/js/panel/router/webdavobj.js:278-290 | in a text of literals, escapes and groups with digits in either case, the first phase replaces exactly the groups with `%e`, and those with `%E` that have no `%e` group ahead |
| NameCodec.SymbolsOfTokens | extracted_fs/www/js/panel/router/webdavobj.js:248-258 | the second phase then reads one unit per token, and the three bytes of a group that was left |
| NameCodec.DecodeSpelledIff | extracted_fs/www/js/panel/router/webdavobj.js:261-293 | a text with digits in either case is read as one unit per token exactly when no group with `%E` comes before one with `%e`, and as more units otherwise |
| NameCodec.UpperBeforeLowerSlips | extracted_fs/www/js/panel/router/webdavobj.js:261-293 | a unit in upper case before one in lower case comes out as its three bytes |
| NameCodec.TruncatedGroupCuts | extracted_fs/www/js/panel/router/webdavobj.js:281-283 | a group cut short ends the decoding before the second phase: what is before it keeps its escapes |
| NameCodec.TruncatedEscapeCuts | extracted_fs/www/js/panel/router/webdavobj.js:251-253 | an escape cut short at the end is dropped |
| NameCodec.DecodeTokens | extracted_fs/www/js/panel/router/webdavobj.js:261-293 | both phases together read every text of literals, escapes and three-byte groups in one case as one unit per token |
| NameCodec.DecodableTokens | extracted_fs/www/js/panel/router/webdavobj.js:261-293 | a string is spelled with one token per unit when decodable and with more tokens than units otherwise |
| NameCodec.DecoderUndoesEncoder | extracted_fs/www/js/panel/router/webdavobj.js:224-293 | `decode(encodeURIComponent(s)) == s`, with digits in upper or in lower case, exactly for the strings over U+0000-U+007F, U+0800-U+D7FF and U+E000-U+FFFF |
| Navigation.Browser.constructor | extracted_fs/www/js/panel/router/webdavobj.js:185 | the path starts as "/" |
| Navigation.Browser.Propfind | extracted_fs/www/js/panel/router/webdavobj.js:1383-1385 | the path becomes the decoded request exactly when some collection in the reply decodes to it |
| Navigation.Browser.GetFileOnClick | extracted_fs/www/js/panel/router/webdavobj.js:348-365 | a click on a folder requests the re-encoded path with the encoded name appended, or throws on an unencodable name; a reply that lists the request sets the path |
| Navigation.Browser.BackOnClick | extracted_fs/www/js/panel/router/webdavobj.js:897-910 | back requests the path without its last name, "/" at the root; a reply that lists the request sets the path |
| Navigation.SplitPath | extracted_fs/www/js/panel/router/webdavobj.js:350-352 | splitting "/a/.../z/" at slashes gives the names between two empty pieces |
| Navigation.EnterAppends | extracted_fs/www/js/panel/router/webdavobj.js:348-365 | from any path of decodable names, entering a folder appends its name exactly when the name is decodable |
| Navigation.BackDrops | extracted_fs/www/js/panel/router/webdavobj.js:897-910 | back drops the last name and stays at the root |
| Navigation.PathIsStack | extracted_fs/www/js/panel/router/webdavobj.js:348-365 | in every run of enter and back, with any replies, the path is "/" or "/seg/.../seg/" of the stack that the answered clicks build |
| Navigation.ReplyDecides | extracted_fs/www/js/panel/router/webdavobj.js:1383-1385 | after a click the path is the entered folder, or the one above, exactly when a collection anywhere in the reply decodes to it, and the old path otherwise |
| Navigation.BackUndoesEnter | extracted_fs/www/js/panel/router/webdavobj.js:897-910 | an answered back after an answered enter restores the path |
| Reorder.SortNumbersSorts | extracted_fs/www/js/panel/router/webdavobj.js:558-560 | the builtin sort is taken as some sorted permutation of the keys |
| Reorder.Listing.RenderBySize | extracted_fs/www/js/panel/router/webdavobj.js:549-609 | the consume-all loops append the files by size, largest first or smallest first, equal sizes in listing order, though equal sizes are visited once per entry |
| Reorder.Listing.RenderByDate | extracted_fs/www/js/panel/router/webdavobj.js:736-890 | the consume-one loops render the listing by date, latest first or earliest first, equal dates in listing order |
| Reorder.Listing.SizeOrderOnClick | extracted_fs/www/js/panel/router/webdavobj.js:475-721 | a click flips the direction and renders the folders and then the files from large to small, or the files from small to large and then the folders; equal sizes keep the listing order |
| Reorder.Listing.FileDateOrderOnClick | extracted_fs/www/js/panel/router/webdavobj.js:723-895 | a click flips the direction and renders the listing from late to early or from early to late, equal dates in listing order |
| Reorder.StableSortPermutes | extracted_fs/www/js/panel/router/webdavobj.js:763-824 | a stable sort is a permutation of the listing |
| Reorder.StableSortUnique | extracted_fs/www/js/panel/router/webdavobj.js:763-824 | there is one stable sort, so the two loop forms agree |
| Reorder.GroupsPermute | extracted_fs/www/js/panel/router/webdavobj.js:491-503 | folders and files partition the listing |
| Reorder.GroupsInOrder | extracted_fs/www/js/panel/router/webdavobj.js:491-503 | both groups keep the order of the listing |
| Reorder.SizeOrderPermutes | extracted_fs/www/js/panel/router/webdavobj.js:504-715 | both renderings by size are permutations of the listing |
| HeaderLayout.Headers.GetActualCellIndex | extracted_fs/www/js/library/all.js:293-338 | a table seen before answers from the cache; else the whole header is laid out, recorded and the column of the cell returned |
| HeaderLayout.BuildIndexes | extracted_fs/www/js/library/all.js:302-336 | the nested loops place each cell in the leftmost free column of its row, given all cells before it, and record that column |
| HeaderLayout.FirstFree | extracted_fs/www/js/library/all.js:319-324 | the scan finds the leftmost undefined entry, at the latest one past the end |
| HeaderLayout.FillBlock | extracted_fs/www/js/library/all.js:326-334 | exactly the slots of the spanned block are marked in addition |
| HeaderLayout.AnchorIsFree | extracted_fs/www/js/library/all.js:319-325 | no earlier cell covers the slot where a cell is anchored, so anchors are pairwise distinct |
| HeaderLayout.ColumnsIncrease | extracted_fs/www/js/library/all.js:308-335 | along a row each cell starts past the whole span of every cell before it |
| HeaderLayout.OneRowColumns | extracted_fs/www/js/library/all.js:308-335 | in a header of one row each cell starts at the sum of the colspans before it, 0 counting as 1 |
| HeaderLayout.SpansKeepClear | extracted_fs/www/js/library/all.js:306-336 | a cell keeps clear of the columns of every earlier cell whose rowspan reaches its row |
| HeaderLayout.OverlapShowsInAnchorRow | extracted_fs/www/js/library/all.js:306-336 | two blocks overlap exactly when they do in the anchor row of the later cell |
| HeaderLayout.DisjointIffFits | extracted_fs/www/js/library/all.js:306-336 | a block is disjoint from all earlier ones exactly when it is no wider than the free run it starts |
| HeaderLayout.LaidUnique | extracted_fs/www/js/library/all.js:306-336 | a header has exactly one layout in which each cell is leftmost free given the cells before it |
| HeaderLayout.RecordedUnique | extracted_fs/www/js/library/all.js:325 | and one layout has one record of columns |
| HeaderLayout.UnitColumnsDisjoint | extracted_fs/www/js/library/all.js:306-336 | all blocks are disjoint when every colspan is 1 |
| HeaderLayout.WideCellOverlaps | extracted_fs/www/js/library/all.js:306-336 | a laid-out header of three cells in which a wide cell overlaps a tall one |
| HeaderLayout.WideCellRecorded | extracted_fs/www/js/library/all.js:306-336 | so that header is recorded with columns 0, 1 and 0, and its blocks overlap |
| Paging.Pager.Page | extracted_fs/www/js/library/all.js:477-483 | stores the given page or size and scrapes |
| Paging.Pager.PageJump | extracted_fs/www/js/library/all.js:484-487 | asks for the stored page plus a number |
| Paging.Pager.PageNext | extracted_fs/www/js/library/all.js:488-490 | asks for the next page |
| Paging.Pager.PagePrevious | extracted_fs/www/js/library/all.js:491-493 | asks for the page before |
| Paging.Pager.FilterRows | extracted_fs/www/js/library/all.js:425-476 | turns a select box, a text box or entries into column filters (text between slashes a pattern, no column that of the cell), an empty one deleting its column when there are filters, and scrapes |
| Paging.TextBoxFiltersPrefix | extracted_fs/www/js/library/all.js:439-443 | typing in a text box filters its column by the prefix |
| Paging.SelectBoxFilters | extracted_fs/www/js/library/all.js:431-446 | choosing a plain value filters the column of the select box by that value, a function text by that function, and an empty value by nothing |
| Paging.PatternIff | extracted_fs/www/js/library/all.js:448-457 | a filter text is a pattern exactly when it is a one-line text between slashes, and then that text is the pattern |
| Paging.TextFilterShows | extracted_fs/www/js/library/all.js:447-545 | a plain text for a column shows exactly the rows with that text there, or without the column |
| Paging.EmptyTextFiltersNothing | extracted_fs/www/js/library/all.js:461-466 | an empty text without filters leaves every row shown |
| Paging.EmptyTextShowsAll | extracted_fs/www/js/library/all.js:461-470 | an empty text for the only filtered column takes the filter off and shows every row |
| Paging.Pager.Scrape | extracted_fs/www/js/library/all.js:494-596 | one scrape: filtered rows hidden, the page shown, an overrun clamped to the last page, whose rows are shown too |
| Paging.Pager.HideOutside | extracted_fs/www/js/library/all.js:516-556 | the row loop shows exactly the passing rows whose rank lies in the page and lists the passing rows by rank |
| Paging.Pager.ShowRest | extracted_fs/www/js/library/all.js:557-565 | the overrun shows in addition exactly the passing rows from one rank on |
| Paging.PageInRange | extracted_fs/www/js/library/all.js:557-560 | the stored page is at most floor(count / pagesize) |
| Paging.VisibleIsStoredPage | extracted_fs/www/js/library/all.js:511-565 | what is visible is exactly the stored page, unless a one-row page holds the last row |
| Paging.ScrapeConsistent | extracted_fs/www/js/library/all.js:494-596 | a scrape with paging on leaves stored page and visible rows consistent exactly unless a one-row page holds the last row |
| Paging.PageShows | extracted_fs/www/js/library/all.js:477-556 | asking for a page that rows follow stores it and shows exactly its rows; what is not given stays, and without a size a page has 25 rows |
| Paging.FirstJump | extracted_fs/www/js/library/all.js:484-487 | a jump counts from page 0 when none was asked for |
| Paging.NextThenPrevious | extracted_fs/www/js/library/all.js:488-493 | from a stored page, next goes on exactly when it is not the last, and next and then previous comes back exactly when it is not the last or is page 0; with the exact cases for pages of one row |
| Paging.RunsStayConsistent | extracted_fs/www/js/library/all.js:425-596 | with pages of two or more rows every run of page, jump and filter calls ends with the page in range and exactly its filtered rows shown |
| Paging.OneRowPageSlips | extracted_fs/www/js/library/all.js:557-565 | two rows, pages of one: the second page shows its row but is stored as page 2 |
| Paging.OneRowPageStays | extracted_fs/www/js/library/all.js:557-565 | with pages of one row previous never leaves the page stored at the end |
| Dhcp.FillZero | extracted_fs/www/js/panel/homeNetwork/dhcp_settings.js:770-776 | pads with zeros to eight digits |
| Dhcp.BinValue | extracted_fs/www/js/panel/homeNetwork/dhcp_settings.js:118-119 | the 32 digits of an address are its 32-bit integer |
| Dhcp.LessIsBelow | extracted_fs/www/js/panel/homeNetwork/dhcp_settings.js:120-123 | the string comparison of equally long digit strings is the comparison of the integers |
| Dhcp.MaskAccepted | extracted_fs/www/js/panel/homeNetwork/dhcp_settings.js:759-769 | on octets `checkSubMask` accepts exactly the /k masks with 1 <= k <= 31, and all zeros when typed with padding; their leading ones are k |
| Dhcp.AcceptedNumbersIff | extracted_fs/www/js/panel/homeNetwork/dhcp_settings.js:759-769 | for any four numbers, the integer of an accepted mask is a prefix mask exactly when they are octets and not all zero |
| Dhcp.AcceptedMaskIsPrefixIff | extracted_fs/www/js/panel/homeNetwork/dhcp_settings.js:759-769 | whatever is typed in the four fields, an accepted mask is a /k mask with 1 <= k <= 31 exactly when they are octets and not all zero, and k is then its leading ones |
| Dhcp.WideMaskSlips | extracted_fs/www/js/panel/homeNetwork/dhcp_settings.js:759-769 | 511.0.0.0 is accepted and is no /k mask |
| Dhcp.EmptyFieldsSlip | extracted_fs/www/js/panel/homeNetwork/dhcp_settings.js:759-776 | four empty fields are accepted with no leading one, and 255.255.255 with the last field empty with 24 |
| Dhcp.NegativeFieldSlips | extracted_fs/www/js/panel/homeNetwork/dhcp_settings.js:759-776 | 255.255.255.-1 is accepted with 24 leading ones |
| Dhcp.EndMasksRefused | extracted_fs/www/js/panel/homeNetwork/dhcp_settings.js:759-762 | the all-zero mask is refused exactly when it is typed without padding, the all-one mask always |
| Dhcp.AcceptedFormHasPrefixIff | extracted_fs/www/js/panel/homeNetwork/dhcp_settings.js:81-215 | whatever is typed in the mask, an accepted form has its range in the subnet of a /k mask exactly when the mask fields are octets and not all zero |
| Dhcp.CountdownEndsIff | extracted_fs/www/js/panel/homeNetwork/dhcp_settings.js:135-142 | counting down until 0 ends exactly when it starts at 0 or above |
| Dhcp.LongMaskHangs | extracted_fs/www/js/panel/homeNetwork/dhcp_settings.js:126-142 | with 511.511.511.511 and an ordinary range the loop that fills the address up is reached and never counts down to 0 |
| Dhcp.InBlock | extracted_fs/www/js/panel/homeNetwork/dhcp_settings.js:136-158 | the range between prefix + zeros and prefix + ones is exactly the addresses with that prefix |
| Dhcp.BinaryToIPValue | extracted_fs/www/js/panel/homeNetwork/dhcp_settings.js:216-222 | the four octets read from 32 digits have the value of the digits |
| Dhcp.StringChecks | extracted_fs/www/js/panel/homeNetwork/dhcp_settings.js:118-157 | each test on digit strings is the integer test it stands for |
| Dhcp.SamePrefixIsSameNetwork | extracted_fs/www/js/panel/homeNetwork/dhcp_settings.js:136-158 | under a prefix mask an equal prefix is an equal `address & mask` |
| Dhcp.GatewayTests | extracted_fs/www/js/panel/homeNetwork/dhcp_settings.js:171-186 | the tests on the fields of a gateway say that its integer lies in 1.0.0.0 to 223.255.255.254, outside 127.0.0.0/8, and does not end in 255 |
| Dhcp.ValidateLanIPAndDHCPConfig | extracted_fs/www/js/panel/homeNetwork/dhcp_settings.js:81-215 | for anything typed in the mask, the form is accepted exactly when the LAN address is good and, with the server on, the mask passes with at most 32 leading ones, start < end as integers, both share that prefix with the LAN address, the LAN address is outside the range, the last octets ascend from 2, the gateway is empty or its integer is in bounds, and the lease is 1 to 10800; it hangs exactly when the mask has more than 32 leading ones and no earlier test stops it; otherwise the message is the first complaint in integer terms, and a shown range is the subnet |
| Dhcp.ClassCFormAcceptedIff | extracted_fs/www/js/panel/homeNetwork/dhcp_settings.js:81-215 | with 255.255.255.0 and a range in 192.168.ip2.x the form is accepted exactly when the LAN address is good, the range starts at 2 or later, ascends and leaves the LAN address out, the gateway is empty or 1-223 but not 127 in its first and not 255 in its last octet, and the lease is 1 to 10800 |
| Dhcp.CheckIPScope | extracted_fs/www/js/panel/homeNetwork/dhcp_settings.js:656-684 | accepts exactly the addresses with the first three octets of the start and a last octet in the range |
| Dhcp.ScopeIsRangeIff | extracted_fs/www/js/panel/homeNetwork/dhcp_settings.js:656-684 | when both ends share their first three octets the scope is exactly the range between their integers |
| Dhcp.ScopeIsInRange | extracted_fs/www/js/panel/homeNetwork/dhcp_settings.js:656-684 | for an accepted form such an address lies in [start, end] and is not the LAN address |
| FixedIp.ValidateStaticIpSet | extracted_fs/www/js/panel/homeNetwork/dhcp_settings.js:627-654 | accepts exactly octets other than the LAN address, a good MAC and a good name |
| FixedIp.MacOkIff | extracted_fs/www/js/base/validator.js:258-276 | a MAC passes exactly when it is six bytes of two digits with colons between them, the first byte even, and not all 255 or all 0 |
| FixedIp.FixedIpList.ValidateStaticIpIsNotExist | extracted_fs/www/js/panel/homeNetwork/dhcp_settings.js:686-721 | the scan refuses exactly when some entry has the address or the typed MAC |
| FixedIp.FixedIpList.ValidateStaticIpIsNotExistExclude | extracted_fs/www/js/panel/homeNetwork/dhcp_settings.js:723-758 | the modify scan refuses exactly when some entry has the address or MAC and does not share it with the selected entry |
| FixedIp.FixedIpList.GetDhcpStaticIp | extracted_fs/www/js/panel/homeNetwork/dhcp_settings.js:444-503 | rows are made and counted for the entries with consecutive numbers, up to the first missing one |
| FixedIp.FixedIpList.AddStaticIp | extracted_fs/www/js/panel/homeNetwork/dhcp_settings.js:588-625 | adds at the end, MAC in lower case, unless the list is full, the entry is malformed, on the LAN address or outside the range, or its address or typed MAC is taken |
| FixedIp.FixedIpList.ModifyStaticIpEntry | extracted_fs/www/js/panel/homeNetwork/dhcp_settings.js:528-586 | replaces one entry unless it is malformed, on the LAN address or outside the range, taken by another or unchanged |
| FixedIp.FixedIpList.DelStaticIpEntry | extracted_fs/www/js/panel/homeNetwork/dhcp_settings.js:505-526 | removes exactly the ticked entries |
| FixedIp.AddOutcome | extracted_fs/www/js/panel/homeNetwork/dhcp_settings.js:588-625 | a good entry whose address and MAC are new is added at the end, with its name and address as typed and its MAC in lower case, exactly while there are fewer than 16 |
| FixedIp.ModifyOutcome | extracted_fs/www/js/panel/homeNetwork/dhcp_settings.js:528-586 | a good changed entry whose address and MAC no other entry has replaces the one with its number and no other |
| FixedIp.ReadNumbered | extracted_fs/www/js/panel/homeNetwork/dhcp_settings.js:452-475 | a list written out with numbers is read back unchanged |
| FixedIp.KeptOccurs | extracted_fs/www/js/panel/homeNetwork/dhcp_settings.js:505-526 | every entry left after a delete stood at a position that was not ticked |
| FixedIp.RunsKeepList | extracted_fs/www/js/panel/homeNetwork/dhcp_settings.js:505-625 | every run of add, modify and delete keeps at most 16 entries with pairwise distinct addresses |
| FixedIp.RunsStayInRange | extracted_fs/www/js/panel/homeNetwork/dhcp_settings.js:505-684 | under an accepted form every run keeps all fixed addresses inside [start, end] and off the LAN address |
| FixedIp.ModifyRejectsOthers | extracted_fs/www/js/panel/homeNetwork/dhcp_settings.js:723-758 | with distinct addresses the modify scan refuses exactly when another entry has the address or the typed MAC, except for an entry that keeps a MAC another entry also has |
| FixedIp.MacsStayDistinctIff | extracted_fs/www/js/panel/homeNetwork/dhcp_settings.js:505-625 | an operation keeps the MACs distinct exactly when a check stops it (limit, form, range, scan, unchanged) or its MAC in lower case is no other entry's |
| FixedIp.LowerRunsKeepMacs | extracted_fs/www/js/panel/homeNetwork/dhcp_settings.js:505-625 | MACs stay distinct in runs that type them in lower case |
| FixedIp.UpperCaseMacSlips | extracted_fs/www/js/panel/homeNetwork/dhcp_settings.js:686-721 | a MAC typed in upper case is accepted next to the same MAC in lower case |
| FixedIp.UpperCaseWitness | extracted_fs/www/js/panel/homeNetwork/dhcp_settings.js:686-721 | two such entries |
| XmlTree.CreateXML | extracted_fs/www/js/base/xml_helper.js:311-337 | the loops build the tree of the recursive definition, or stop where the source throws for a missing parent |
| XmlTree.AppendAt | extracted_fs/www/js/base/xml_helper.js:267-276 | in any document, appending below the first element with a tag adds one element, at the path of that element plus the new name, and nothing else |
| XmlTree.AppendAtEnd | extracted_fs/www/js/base/xml_helper.js:267-276 | below a tag that occurs once the new element comes after all others at its path |
| XmlTree.LeafLandsIff | extracted_fs/www/js/base/xml_helper.js:267-276 | a leaf lands below a path exactly when the first element with the parent's name is the one at that path |
| XmlTree.EntryLandsIff | extracted_fs/www/js/base/xml_helper.js:320-332 | for any document and key, the leaf lands at the key's own path exactly when the first element with its parent's name, after the interior loop, is the one on that path |
| XmlTree.LeafForms | extracted_fs/www/js/base/xml_helper.js:324-332 | a name without # makes a text leaf, with #index a leaf with the number of the entry, with #delete a marked leaf with the value; #index is sought first, and a null value carries nothing |
| XmlTree.InteriorAll | extracted_fs/www/js/base/xml_helper.js:320-322 | the interior elements of a key are found or created, each once and at its own path |
| XmlTree.LeafStep | extracted_fs/www/js/base/xml_helper.js:324-332 | the leaf of a key goes below its parent, after the leaves already there |
| XmlTree.BuildHolds | extracted_fs/www/js/base/xml_helper.js:311-337 | the build succeeds on every well-named list and keeps each interior name once, at its path |
| XmlTree.EveryEntryIsPlaced | extracted_fs/www/js/base/xml_helper.js:311-337 | when each interior name has one path and no leaf name is an interior name, the contents at every path are exactly the values of its keys in map order, one bare element for each interior path, and nothing else |
| XmlTree.LeafNameCaptures | extracted_fs/www/js/base/xml_helper.js:318-322 | a leaf that shares an interior name captures the entry of a later key |
| UniCodec.UniEncode | extracted_fs/www/js/base/utils.js:543-557 | four lower-case digits per code unit, by the padding loop |
| UniCodec.UniDecode | extracted_fs/www/js/base/utils.js:594-605 | the loop reads four digits at a time on every text, a last short group included |
| UniCodec.Hex4Parses | extracted_fs/www/js/base/utils.js:549-602 | the four digits of a unit parse back to it |
| UniCodec.DecodeUndoesEncode | extracted_fs/www/js/base/utils.js:543-605 | `UniDecode(UniEncode(s)) == s` for all strings |
| UniCodec.OddGroups | extracted_fs/www/js/base/utils.js:594-605 | a group that starts with no number is read as U+0000, and a last short group as its digits |
| StkMenu.ReadItem | extracted_fs/www/js/panel/stk/stk.js:155-176 | every pass moves the offset by at least 4 |
| StkMenu.SetUpMenu | extracted_fs/www/js/panel/stk/stk.js:140-181 | the loop ends on every text and shows the rows of the recursive reading, or refuses |
| StkMenu.ReadsItem | extracted_fs/www/js/panel/stk/stk.js:155-176 | an item with either tag (0F, 8F) in the middle of a menu is read as its own row and up to its end |
| StkMenu.SkipsAlpha | extracted_fs/www/js/panel/stk/stk.js:146-151 | an alpha identifier with either tag (05, 85) and one length byte, up to 255 bytes, is skipped |
| StkMenu.MenuUndoesEncoder | extracted_fs/www/js/panel/stk/stk.js:140-181 | a SET UP MENU text (sections 6.6.7, 8.2 and 8.9 of ETSI TS 102 223) with one length byte per item, the comprehension bit of every tag set or not, shows exactly the items, up to 126 units each |
| StkMenu.OtherTagRefuses | extracted_fs/www/js/panel/stk/stk.js:155-158 | something behind the items that is no item refuses the whole menu |
| StkMenu.AlphaEdges | extracted_fs/www/js/panel/stk/stk.js:143-154 | a text without an alpha tag is refused, and an alpha identifier whose length is no number shows an empty menu |
| StkMenu.LongItemMisread | extracted_fs/www/js/panel/stk/stk.js:159-175 | an item with a two-byte length never comes out as its own row |
| StkMenu.ReadsStandardAlpha | extracted_fs/www/js/panel/stk/stk.js:146-151 | with the standard length the first item is looked for after the alpha identifier up to 127 bytes, and at digit 262 from 128 bytes on |
| StkMenu.StandardMenuIff | extracted_fs/www/js/panel/stk/stk.js:140-181 | under the two-byte length form, with an alpha identifier of up to 128 bytes and the comprehension bit of every tag set or not, the menu shows the items exactly when none is longer than 62 units |
| StkMenu.LongAlphaMisread | extracted_fs/www/js/panel/stk/stk.js:146-179 | with an alpha identifier of 129 to 255 bytes no menu is shown as empty, and a menu is refused unless byte 128 of the alpha identifier, counted from 0, is an item tag |
| StkMenu.StandardAlphaIff | extracted_fs/www/js/panel/stk/stk.js:140-181 | that the menu shows the items exactly when none is longer than 62 units holds for all item lists exactly when the alpha identifier has at most 128 bytes |
| StkMenu.OtherCodingShowsLastText | extracted_fs/www/js/panel/stk/stk.js:172-177 | an item in another coding is shown with the text of the item before it |
| StkMenu.EmptyItemRepeatsRow | extracted_fs/www/js/panel/stk/stk.js:159-179 | an item whose length is 0 or no number is shown as the row before it |
| StkMenu.OneByteItem | extracted_fs/www/js/panel/stk/stk.js:163-176 | an item of one byte takes its coding from what follows it, and shows no text or the text before it |
| StkMenu.CommandReachesMenu | extracted_fs/www/js/panel/stk/stk.js:27-75 | a command of either length form hands exactly its menu to the menu parser |
| StkMenu.WrongLengthForm | extracted_fs/www/js/panel/stk/stk.js:38-51 | a length from 128 on in one byte, or below 128 behind 81, stops the command |
| StkMenu.OtherCommandIgnored | extracted_fs/www/js/panel/stk/stk.js:52-75 | a command of another type hands nothing to the menu parser |
| NcCounter.Hex | extracted_fs/www/js/base/utils.js:300-309 | the loop ends on every integer and builds the digits of the recursive definition |
| NcCounter.NcReadsBack | extracted_fs/www/js/base/utils.js:150-152 | the last 8 characters of the zero-extended digits spell the counter exactly below 2^31 |
| NcCounter.AuthCounter.GetAuthHeader | extracted_fs/www/js/base/utils.js:150-155 | sends the current value and counts up |
| NcCounter.AuthCounter.GetHeader | extracted_fs/www/js/base/utils.js:199-205 | sends the current value and counts up |
| NcCounter.AuthCounter.WebdavGetAuthHeader | extracted_fs/www/js/panel/router/webdavobj.js:1233-1239 | sends the current value and counts up |
| NcCounter.AuthCounter.DoLogin | extracted_fs/www/js/base/utils.js:115-121 | sends the current value and does not count |
| NcCounter.AuthCounter.Serve | extracted_fs/www/js/base/utils.js:115-205 | any interleaving of logins and the three builders sends the counter as advanced by the builders before |
| NcCounter.SharedIff | extracted_fs/www/js/base/utils.js:115-205 | below 2^31 values never decrease, and two are equal exactly when only logins are sent from the first up to the second |
| NcCounter.NcsIncreaseIff | extracted_fs/www/js/base/utils.js:115-205 | below 2^31 the values (section 3.2.2 of RFC 2617) strictly increase, and are pairwise distinct, exactly when nothing follows a login |
| IframeUpload.Upload.AbortXhr | extracted_fs/www/js/jquery/jquery-form.js:401-425 | one error and one complete, whatever happened before |
| IframeUpload.Upload.Callback | extracted_fs/www/js/jquery/jquery-form.js:618-790 | the load callback: ignored once aborted or processed, aborts, waits, requeues, or fires success or error and then complete |
| IframeUpload.Upload.OnTimeout | extracted_fs/www/js/jquery/jquery-form.js:533-535 | the timer marks the upload as timed out and runs the callback |
| IframeUpload.Upload.OnCheckStateFails | extracted_fs/www/js/jquery/jquery-form.js:547-554 | an unreadable frame runs the callback as a server abort |
| IframeUpload.StepKeepsInv | extracted_fs/www/js/jquery/jquery-form.js:618-790 | every event without a caller abort keeps the callback counts in step with the flags; a finished upload changes nothing but its timeout flag |
| IframeUpload.CallbacksFireOnce | extracted_fs/www/js/jquery/jquery-form.js:401-790 | in every run without a caller abort complete fires once exactly when finished, with exactly one of success and error, and the callback requeues itself at most 49 times |
| IframeUpload.FiresIff | extracted_fs/www/js/jquery/jquery-form.js:618-770 | an event fires success exactly when it is a load of a readable, ready document in an unfinished upload that has not timed out, with status 200-299 or 304, or without a status a parsed response; and error exactly in the other cases that end it |
| IframeUpload.NeverReadyFires | extracted_fs/www/js/jquery/jquery-form.js:660-672 | a document that never gets ready is looked at 50 times and then taken as it is |
| IframeUpload.LaterEventsIgnored | extracted_fs/www/js/jquery/jquery-form.js:618-621 | once finished, no later event fires anything |
| IframeUpload.CompletesAtMostOnceIff | extracted_fs/www/js/jquery/jquery-form.js:401-790 | over all event sequences, caller aborts included, complete fires at most once exactly when the caller never aborts a finished upload |
| IframeUpload.NeverBothIff | extracted_fs/www/js/jquery/jquery-form.js:401-790 | over all event sequences success and error never both fire exactly when the caller never aborts after a success |
| IframeUpload.CallerAbortFiresTwice | extracted_fs/www/js/jquery/jquery-form.js:401-425 | an abort by the caller after a success fires error and a second complete |

## Left out

- Md5Strings.CoreMd5: bit lengths of 2^31 and more, where `len >> 5` turns negative and the write misses the array; the digest methods and the codecs have the same bound.
- Dhcp.ValidateLanIPAndDHCPConfig: with octets of start or end outside 0-255 only refusal and hanging are stated, not which message is shown; outside the mask the address fields hold numbers, so their empty fields, letters and leading zeros are not modelled.
- FixedIp.RunsKeepList: the server applies accepted operations in order and its list is read back with consecutive numbers; rejected replies are not modelled.
- UploadProtocol.EveryRunTilesTheFile: runs with failed PUTs, runs in which a chunk is started while one is outstanding (`EarlyClickMislabelsIff` says when the next PUT goes wrong for confirm, continue and cancel; a file selected then is not followed further), and shared uploads whose file changes after a chunk was sent (`SharedReselectSkips`).
- Paging.Pager.FilterRows: a regular expression and a compiled function text are tests given as parameters; a select box without a selection is not modelled.
- Paging.Pager.Scrape: row striping, the page number texts and tables without bodies; the rows of all bodies are one list.
- HeaderLayout.Headers.GetActualCellIndex: header rows come first in the table, so a row's number is its index in the header; cells without a `cellIndex` are not modelled.
- IframeUpload.CallbacksFireOnce: exceptions thrown by the user's own callbacks, `beforeSend`, and the deferred object; timers that were cleared may still fire in the model.
- Md5.Round1: the 64 unrolled lines stand in four methods of 16 lines each.
- The sine table is given by the constants of section 3.4 of RFC 1321, not computed.
- The range written into the upload's Content-Range header is not claimed to follow section 4.2 of RFC 7233: `ToSize` is exclusive.
- `clearAuthheader`, which sets the counter to an empty string.
- `getFileMD5` and SparkMD5: chunked reading of a file into a library that is not part of this model.
- Class `Map` of `xml_helper.js`: entries are given as a list with keys already split at slashes; put, get and remove are not modelled.
- The order by name, which repeats rows when lower-cased names coincide; `Array.sort`, taken as a sorted permutation; keys that are not numbers.
- `parseInt`, `charCodeAt`, `substr`, `indexOf` and `encodeURIComponent` are builtins with small definitions of their own; IPv4 addresses are quadruples of numbers.
- The DOM, dialogs, localisation, HTML strings, AJAX transport and the server; replies are events.
- Table sorting, the SMS, WPS and USSD pages, formatters, password checks and traffic conversion: one-branch code or I/O.
