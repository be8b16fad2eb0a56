# Verified model of the Shairport Sync core

A Dafny model of six cores of Shairport Sync, each with the property it exists for:

- the ALAC decoder of `src/alac.c`, proved to invert an encoder written down as its specification, from the bit
  cursor to the PCM bytes of a whole frame;
- the mDNS codec and responder of `src/tinysvcmdns.c`: name compression, records and packets that survive a round
  trip, the record store, the answers to a query, and the closure that makes up the additional section;
- the player of `src/player.c`: the jitter buffer with its resend requests and timestamp flush, the sample path, and
  the running statistics;
- the byte queue in front of PulseAudio (`src/audio_pa.c`), the remote-volume arithmetic (`src/dacp.c`) and the
  two-thread activity monitor (`src/activity_monitor.c`).

`dafny verify dfyconfig.toml` checks everything.

## How it is built

Each imperative piece of the source is a class or a method over arrays, linked nodes and fields; its contract ties the
new state to a function or predicate of the old one, and the properties are lemmas about those. Integers are
unbounded in Dafny, so every 16-, 32- and 64-bit wrap-around of the source is written out. Mutexes are modelled as
atomic steps. Clocks, random numbers, timestamps converted from clocks, and what foreign libraries grant are inputs.

| files | what they hold |
|---|---|
| `Numbers` | fixed-width arithmetic, bit strings |
| `AlacBitReader`, `AlacRice`, `AlacPredictor`, `AlacInterlace` | the four layers of the decoder, each against its encoder |
| `AlacSignLms`, `AlacExamples` | the law of the adaptive filter in exact arithmetic; codes bit by bit |
| `AlacLayout`, `AlacFrame` | the layout of a frame, and the decoder of a frame |
| `MdnsNames`, `MdnsNameCodec` | compressed names as values, and the code over a packet buffer |
| `MdnsRecords`, `MdnsPackets`, `MdnsPacketCodec` | records and packets as values, and the code over a packet buffer |
| `MdnsStore`, `MdnsLists`, `MdnsResponder` | the name index, the linked lists, the answer to a query |
| `MdnsQueries`, `MdnsExamples` | queries as an asker lays them out, from their bytes to what it hears; a reply byte by byte |
| `PlayerSlots`, `PlayerResends`, `PlayerWindow`, `PlayerFlush`, `PlayerStream` | the parts of the jitter buffer as values: slots, missing packets, what the slots hold, timestamps |
| `PlayerSteps`, `PlayerSafety` | its steps as functions on one state, and what every step keeps |
| `PlayerBuffer`, `PlayerRun`, `PlayerExamples` | the class that takes these steps, whole runs of it, and runs on which it fails |
| `PlayerSamples`, `PlayerStatistics` | volume, dither, formats and stuffing; the statistics ring |
| `PulseQueue`, `DacpVolume`, `ActivityMonitor` | the three smaller cores |

## What does not hold, and when it does

- **16-bit ALAC frames that announce an uncompressed low byte** lose it: `src/alac.c:779-787` and `973-978` never
  rejoin it. `AlacLayout.Lossless` says that such a frame decodes to its own PCM if and only if every sample is 0 or
  -1; every other layout is lossless without condition. `AlacLayout.LowByteLost` is a frame that fails.
- **The history multiplier** of an ALAC stream can be up to 446, and the product of history and multiplier overflows
  int32 on some stream if and only if it is above 64 (`AlacRice.SafeForAllStreams`). Frames are decoded losslessly
  whenever no product overflows on their own residuals (`AlacLayout.CalmChannel`).
- **The class of a record** is masked with `~0x80` instead of `~0x8000` (`src/tinysvcmdns.c:746`).
  `MdnsRecords.ClassRoundTrip` gives the exact condition for it to come back, and `ClassLost` a class that does not.
- **TXT strings of 63 bytes** are refused by the parser (`src/tinysvcmdns.c:94-96`), and with one of them the whole
  packet; `MdnsRecords.LongStringRefused` is one.
- **Names first written at offset 0x4000 or behind** cannot be pointed to (`src/tinysvcmdns.c:921`). A name comes back
  if and only if the pointer that ends it leads below 0x4000, or by coincidence to the same name
  (`MdnsNames.EncodedDecodes`), and a reply if and only if this holds of the names in its answers that the parser
  expands and no answer has a string of 63 bytes (`MdnsPackets.PacketRoundTrip`). `MdnsPackets.NameLost` is a reply
  of three answers that does not: a TXT record of 300 strings, and two addresses of one new name behind it.
- **Known-answer suppression** compares record data for PTR records only, looks at the first match only, and halves
  the time to live downwards (`src/tinysvcmdns.c:589-602`, `1358-1359`), so an asker that knows one address of a host
  does not get the other (`MdnsLists.WrongAnswersSuppressed`). `MdnsLists.SuppressionIsRule` says exactly for which
  stores and known answers this is the rule of section 7.1 of RFC 6762.
- **A gap across the wrap-around of the sequence numbers** is computed as a negative number, so its slots are not
  marked as missing (`src/player.c:470-474`), and a slot left ready by an earlier skip of out-of-date frames
  (`src/player.c:1090-1094`) stays ready in it. When the read pointer reaches that slot it goes back 1024 numbers or
  more (`src/player.c:1124-1131`), and order is lost. `PlayerRun.RunSafe` says that all slots hold what they should
  throughout a run if and only if no such gap contains a ready slot, and `PlayerRun.NeverBack` that the pointer then
  never goes back; `PlayerExamples.OrderLost` is a run on which packet 64511 comes after 64512, and 64512 is next again.
- **Resend requests** count the packets that are due but name consecutive ones, so they can name the wrong packets
  (`src/player.c:588-622`). `PlayerResends.RequestsNameStamped` gives the condition;
  `PlayerExamples.WrongPacketsAskedFor` is a run on which 12 is asked for in place of 13.
- **A flush request is dropped without effect** while the write sequence number is numerically below the read one, or
  the buffer is empty (`src/player.c:936`, `1048-1055`); the comment there says that it stays pending. The skip of
  out-of-date frames stops for the same reason. `PlayerSteps.FlushedCases` and `PlayerSteps.SkipTo` state both;
  `PlayerExamples.FlushDropped` is a run that ends in it.
- **A flush can remove more frames from a slot than it has** (`src/player.c:994-1005`): exactly if the slot at which the
  loop stops is empty and stamped 2^31 - 1 frames before the flush timestamp (`PlayerFlush.TrimFits`), which never
  happens in a buffer that is one stream (`PlayerSafety.WholeFlushed`). `PlayerExamples.FlushOverrun` is a run that ends
  in it: 11 is missing between 10 and 12, and a flush to 0x7FFFFFFF is requested. What the code does then is undefined,
  and a run ends there.
- **Activity that ends before the monitor thread has woken up** is missed: with a timeout, the start hook has run, but
  the thread goes on waiting for activity (`src/activity_monitor.c:165-167`) and the stop hook does not run until
  activity has come and gone once more. `ActivityMonitor.StopsInTime` says that the timed wait is reached if and only
  if the thread is not waiting there; `ActivityMonitor.ShortActivityMissed` is a run for any number of its turns.

## Model

| member | source | states |
|---|---|---|
| AlacBitReader.WindowRead | src/alac.c:143-153 | loading three bytes, shifting, masking and shifting back yields exactly the next bits of the stream, at every bit offset |
| AlacBitReader.BitReader.ReadBits16 | src/alac.c:139-165 | the pointer and accumulator refine one position in a flat bit string: the value is the next bits, and the position moves by their number |
| AlacBitReader.BitReader.ReadBits | src/alac.c:168-179 | the same for up to 32 bits, read in two parts |
| AlacBitReader.BitReader.ReadBit | src/alac.c:182-199 | the next bit, and the position one further |
| AlacBitReader.BitReader.UnreadBits | src/alac.c:201-209 | the position goes back by the number of bits; the sign test of the code never matters |
| AlacBitReader.NumberSplit | src/alac.c:171-176 | a field read in two parts is the number of the whole field |
| AlacRice.SampleKRange | src/alac.c:350-355 | for every history in range the parameter is 1 to 16, and no leading zeros of zero are counted |
| AlacRice.SampleKIs | src/alac.c:350-355 | which number it is: the greatest one up to the modifier whose power of two is not above history / 512 + 3 |
| AlacRice.RunKRange | src/alac.c:381 | for a positive history below 128 the parameter of a zero run is 2 to 7 |
| AlacRice.RunKIs | src/alac.c:381 | which number it is, by thresholds of the history: 7, then 6 from 2, 5 from 4, 4 from 8, 3 from 16, 2 from 32, 3 from 48, 2 from 64, 3 from 112 on |
| AlacRice.LeakySumBound | src/alac.c:370 | for every multiplier below 512 the leaky sum stays between 1 and 512 * 0xFFFF |
| AlacRice.HistoryStep | src/alac.c:370-373 | for every multiplier below 512: when the decoded value is up to 0xFFFF and the product of history and multiplier fits, no int32 operation of the update wraps; larger values replace the history; either way it is the exact one and stays in range |
| AlacRice.NextHistoryIs | src/alac.c:370-373 | the update in numbers: a 512th of the product of history and multiplier is lost and the product of value and multiplier gained, or the history is 0xFFFF after a larger value |
| AlacRice.SafeMultiplier | src/alac.c:370 | the product of history and multiplier fits int32 for every history in range exactly when the multiplier is at most 64 |
| AlacRice.HistoryAlwaysInRange | src/alac.c:345-397 | for every multiplier below 512, in exact arithmetic the history stays in range through every stream of decoded values and is never zero where leading zeros are counted |
| AlacRice.SentGoesOn | src/alac.c:357-397 | the history of a stream that is sent goes on from one residual to the next as such a trace does |
| AlacRice.LowMultiplierCalm | src/alac.c:370 | with a multiplier up to 64 no product overflows on any stream of residuals |
| AlacRice.LoudestOverflows | src/alac.c:370 | with one of 65 to 511, decoding 0xFFFF again and again overflows it within 513 samples |
| AlacRice.SafeForAllStreams | src/alac.c:345-397 | for samples of 16 bits or more: no stream of residuals makes a product overflow if and only if the multiplier is at most 64 |
| AlacRice.PrefixUnitBits | src/alac.c:326 | bit by bit the unit of the prefix is the mask of k bits and-ed with that of the modifier |
| AlacRice.RiceCodeIs | src/alac.c:302-335 | the code in full: up to eight units as ones, a zero and the remainder, or nine ones and the value itself |
| AlacRice.RiceCodeReads | src/alac.c:302-335 | on the code of a value, prefix, escape, remainder and the bit given back are read as the decoder expects, up to the code's end |
| AlacRice.EntropyDecodeValue | src/alac.c:302-335 | decodes the value that was encoded and stops exactly behind its code, escapes and short remainders included |
| AlacRice.UnfoldFold | src/alac.c:361-363 | the sign stored in the low bit is undone, for every residual |
| AlacRice.UnfoldedIs | src/alac.c:361-363 | even values are the residuals from 0 up, odd ones those from -1 down |
| AlacRice.NextSample | src/alac.c:345-370 | behind a sample's code stands the length of a run of zeros or the next code, as the decoder's history says |
| AlacRice.DecodeRunLength | src/alac.c:375-397 | a run of zeros comes back with its length; it is never above 0xFFFF and never leaves the block |
| AlacRice.EntropyRiceDecode | src/alac.c:337-398 | the code of any encodable residuals decodes to them, the cursor ends exactly behind the last code, and nothing else is written |
| AlacExamples.KnownCode | src/alac.c:337-398 | the 40 bits of the residuals 1, 0, 0, -3, 20, 2: a run of zeros, a value one less behind it, a value sent as it is, and a larger parameter |
| AlacExamples.KnownMaskedCode | src/alac.c:381-384 | the 11 bits of a stream whose modifier masks the unit of the run, but not that of the samples |
| AlacPredictor.SignExtension | src/alac.c:400 | the sign-extension macro yields the representative of a value modulo a power of two in the signed range |
| AlacPredictor.ResidualRestores | src/alac.c:480-483 | adding a prediction back restores a sample of the right size, whatever wrapped in between |
| AlacPredictor.ResidualDetermined | src/alac.c:480-483 | a residual of the right size is determined by the sample it leads to |
| AlacPredictor.AdaptCoefficients | src/alac.c:487-517 | the table in place becomes the specification's adapted table, int16 wrap-around included |
| AlacPredictor.FilterTaps | src/alac.c:473-478 | the tap loop computes the weighted sum of the window in int32 |
| AlacPredictor.DecompressFirAdapt | src/alac.c:404-522 | the samples written are those the specification decodes, in all four cases of the code |
| AlacPredictor.DecodesExactly | src/alac.c:404-522 | every residual sequence decodes to one sample sequence and no other |
| AlacPredictor.EncodeThenDecode | src/alac.c:404-522 | every sequence of samples of the right size is reached, by residuals of the right size |
| AlacPredictor.DecodeThenEncode | src/alac.c:404-522 | residuals of the right size are recovered from their samples, encoder and decoder tables staying equal |
| AlacPredictor.DecodeInjective | src/alac.c:404-522 | distinct residual sequences lead to distinct samples, even though sums and coefficients wrap |
| AlacSignLms.CoefficientMoves | src/alac.c:487-517 | the sign-LMS law: after every sample behind the warm-up, coefficient j moves by one, up if residual and difference of its tap have the same sign and down if not, if and only if neither is 0 and the residual exceeds what the taps behind j use up, floor(difference / 2^shift) times weight each, or the ceiling for a negative residual |
| AlacSignLms.TapSumIsDot | src/alac.c:473-475 | however it wraps in between, the sum of the loop is the weighted sum of differences modulo 2^32 |
| AlacSignLms.PredictionIsNearest | src/alac.c:473-479 | where that sum fits int32, the prediction is the first sample of the window moved by it in units of 2^shift, to the nearest, halves upwards |
| AlacSignLms.SampleIs | src/alac.c:404-485 | every decoded sample is its residual added to the prediction: 0, the sample before, or the nearest one above, as the case may be |
| AlacSignLms.FirstCoefficients | src/alac.c:471-475 | the coefficients are those of the frame until the first sample behind the warm-up is decoded |
| AlacInterlace.MidFits | src/alac.c:533-541 | the first channel of a weighted pair fits in one bit more than its samples |
| AlacInterlace.MidIsWeightedMean | src/alac.c:533-541 | the first channel is the mean of both samples, the left one with the weight over 2^shift, rounded down |
| AlacInterlace.PairRestored | src/alac.c:591-595 | weighted interlacing is undone exactly for every pair, even when the weighted product wraps |
| AlacInterlace.PairRestored16 | src/alac.c:534-542 | narrowing to int16 loses nothing of 16-bit samples |
| AlacInterlace.PartsRejoin | src/alac.c:597-604 | shifting left and or-ing in the masked low bytes rejoins every sample from its parts |
| AlacInterlace.Deinterlace16 | src/alac.c:524-575 | the output is the little-endian PCM of the pairs, for both ways of interlacing |
| AlacInterlace.Deinterlace24 | src/alac.c:577-642 | the same for 24 bits, with low bytes rejoined |
| AlacInterlace.Pcm16At | src/alac.c:546-562 | where each sample of 16-bit output stands: low byte first, left before right |
| AlacInterlace.Pcm24At | src/alac.c:606-640 | the same for 24 bits |
| AlacLayout.ChannelsFit | src/alac.c:853 | both predicted channels stay within the sample size the frame announces |
| AlacLayout.Lossless | src/alac.c:779-800 | what the decoder writes is the block's PCM, except for a 16-bit frame with a low byte, where it is if and only if the byte carries no information |
| AlacLayout.LowByteLost | src/alac.c:779-787 | a frame whose output is not its PCM |
| AlacLayout.LowChannelCalm | src/alac.c:909-923 | with a multiplier up to 64 every channel meets what the decoder needs of its residuals |
| AlacFrame.ReadChannel | src/alac.c:711-721 | the header of a channel and its coefficients come back as laid out, as signed 16-bit numbers |
| AlacFrame.DecodeChannel | src/alac.c:730-747 | Rice decoding and the predictor together return a channel's samples and leave the cursor at its end |
| AlacFrame.ReadRaw | src/alac.c:750-775 | uncompressed samples of 16 and of 24 bits come back, the latter in two parts |
| AlacFrame.AlacFile.ReadCompressed | src/alac.c:855-932 | the body of a compressed frame fills the buffers with the channels and low bytes it was laid out from |
| AlacFrame.AlacFile.WriteOutput | src/alac.c:778-800 | the buffers are written out as the interleaved PCM of the block, and nothing behind it |
| AlacFrame.AlacFile.DecodeFrame | src/alac.c:644-997 | on the frame of any block, mono or stereo, 16 or 24 bits, raw or compressed, whose history products fit, exactly its output bytes are written; a buffer too small is left alone |
| AlacFrame.PackedFrame | src/alac.c:143 | a packed frame with three readable bytes behind it meets what the decoder needs |
| MdnsNames.RawInjective | src/tinysvcmdns.h:198-201 | comparing the C strings decides equality of names |
| MdnsNames.PointerTarget | src/tinysvcmdns.c:921 | a pointer leads back to its position exactly when that is below 0x4000 |
| MdnsNames.DecodesUnique | src/tinysvcmdns.c:265-309 | at most one name stands at an offset |
| MdnsNames.EncodedDecodes | src/tinysvcmdns.c:910-951 | wherever a name is written, it expands to itself if and only if the pointer that ends it leads below 0x4000, or by coincidence to the same name; either way every entry it adds below 0x4000 is usable |
| MdnsNames.EncodeNameOk | src/tinysvcmdns.c:910-951 | writing any name keeps all entries of the compression list below 0x4000 usable, even if the name itself is lost |
| MdnsNames.EncodedLength | src/tinysvcmdns.c:168-185 | the measured length of a written name is what the encoder returned |
| MdnsNameCodec.CompressionList.Find | src/tinysvcmdns.c:918-927 | finds the first entry for a name |
| MdnsNameCodec.EncodeNameAt | src/tinysvcmdns.c:910-951 | the loop over labels writes exactly the specified bytes, extends the list as specified and returns their number |
| MdnsNameCodec.LabelLen | src/tinysvcmdns.c:168-185 | returns the specified length of a name field without following pointers |
| MdnsNameCodec.Uncompress | src/tinysvcmdns.c:265-309 | both passes terminate across pointers and the new string holds exactly the name, or nothing if the offset is beyond the packet |
| MdnsRecords.SwapTwice | src/tinysvcmdns.c:771 | the address is put in network order once on the way out and once on the way in |
| MdnsRecords.OctetsOnWire | src/tinysvcmdns.c:985-988 | the octets of an address are sent first to last |
| MdnsRecords.ClassRoundTrip | src/tinysvcmdns.c:745-746 | the class comes back exactly when its top bit is the cache-flush bit and bit 7 is clear |
| MdnsRecords.ClassLost | src/tinysvcmdns.c:745-746 | class 1 with the cache-flush bit comes back as 0x8001 |
| MdnsRecords.TxtRoundTrip | src/tinysvcmdns.c:799-826 | the strings of a TXT record come back if and only if none is 63 bytes long |
| MdnsRecords.LongStringRefused | src/tinysvcmdns.c:94-96 | a string of 63 bytes that the parser refuses |
| MdnsRecords.EncodeRecordOk | src/tinysvcmdns.c:955-1043 | the names in a record that the parser expands stand where they were written if and only if their pointers lead there; the list stays usable whatever the record |
| MdnsRecords.RecordRoundTrip | src/tinysvcmdns.c:714-846 | wherever a record is written and whatever follows it, it parses back to its name, type, time to live, flag and data, with the size that was written, if and only if its pointers lead to its names and no string has 63 bytes |
| MdnsRecords.NotParsed | src/tinysvcmdns.c:799-826 | a record with a 63-byte string is refused, whatever its name has become |
| MdnsRecords.ServiceData | src/tinysvcmdns.c:1010-1018 | SRV data, which the parser skips, is priority, weight, port and a name that is the host if and only if its pointer leads there |
| MdnsRecords.NextSecureData | src/tinysvcmdns.c:1020-1030 | NSEC data is the name of the record and one window of five bytes |
| MdnsRecords.CStringIs | src/tinysvcmdns.c:799-826 | a string is copied up to its first NUL and filled with NUL |
| MdnsPackets.RecordsRoundTrip | src/tinysvcmdns.c:849-906 | records written one behind the other parse back one behind the other, skipped SRV and NSEC data included, if and only if that holds of each |
| MdnsPackets.PacketRoundTrip | src/tinysvcmdns.c:1047-1108 | a reply of any length, with any additional records, parses back to its header and answers if and only if the pointers in its answers lead to their names and no answer holds a 63-byte string; if only the latter fails, it is refused |
| MdnsPackets.LowAnswers | src/tinysvcmdns.c:1047-1108 | the pointers are good when the answers end within 0x4000 bytes, whatever additional records follow |
| MdnsPackets.SectionsStand | src/tinysvcmdns.c:1080-1108 | answers, authority and additional records stand one behind the other, each as it parses back |
| MdnsExamples.KnownReply | src/tinysvcmdns.c:955-1108 | a reply with PTR, SRV, TXT, A and NSEC records, byte by byte |
| MdnsPackets.GoodAnswersLead | src/tinysvcmdns.c:921 | pointers below 0x4000 lead to their names |
| MdnsPackets.NameLost | src/tinysvcmdns.c:921 | a reply, as the responder builds it, whose third answer does not come back: its name was first written behind 0x4000 |
| MdnsPacketCodec.EncodeRecordAt | src/tinysvcmdns.c:955-1043 | writes exactly the specified bytes, with the data length filled in afterwards, and returns their number |
| MdnsPacketCodec.EncodePacketAt | src/tinysvcmdns.c:1047-1108 | writes exactly the specified packet, or returns -1 once it outgrows the length announced, in a buffer that holds all of it |
| MdnsPacketCodec.ParseTxtAt | src/tinysvcmdns.c:799-826 | the loop returns the strings as specified, or refuses them |
| MdnsPacketCodec.ParseRecordAt | src/tinysvcmdns.c:714-846 | returns the specified record and size, or malformed |
| MdnsPacketCodec.ParseQuestionAt | src/tinysvcmdns.c:676-710 | returns the specified question and size |
| MdnsPacketCodec.ParsePacketAt | src/tinysvcmdns.c:849-906 | returns the specified packet, or nothing |
| MdnsStore.AppendAllFacts | src/tinysvcmdns.c:416-444 | appending never makes a duplicate, loses nothing and adds just what is appended |
| MdnsStore.GroupExtended | src/tinysvcmdns.c:548-553 | adding to a group keeps the name index equal to a scan of all added records |
| MdnsStore.GroupPrepended | src/tinysvcmdns.c:556-567 | so does a new group |
| MdnsStore.MatchingInGroup | src/tinysvcmdns.c:1245-1261 | looking in the group of a name is the same as looking through all records |
| MdnsStore.Store.Find | src/tinysvcmdns.c:570-576 | finds the group of a name if there is one |
| MdnsStore.Store.Add | src/tinysvcmdns.c:543-567 | the record is added once, and the index still agrees with a scan |
| MdnsLists.FirstMatch | src/tinysvcmdns.c:589-602 | the first known answer of the same type, name and PTR target |
| MdnsLists.PtrSuppressed | src/tinysvcmdns.c:588-602 | a PTR answer is suppressed if and only if its own target has been named for its name, the first time with at least half its time to live; other targets do not matter |
| MdnsLists.OtherSuppressed | src/tinysvcmdns.c:588-602 | any other answer if and only if the first known answer of its name and type has that time to live |
| MdnsLists.SuppressionIsRule | src/tinysvcmdns.c:1351-1378 | whatever times to live the asker has sent, exactly the answers it knows by section 7.1 of RFC 6762 (same name, type, class and data) are suppressed, if and only if for every stored record nothing sent matches it, or it is itself the first that does, is sent once, and has an even time to live |
| MdnsLists.ParsedSuppresses | src/tinysvcmdns.c:714-846 | the known answers as sent and as parsed suppress the same records |
| MdnsLists.WrongAnswersSuppressed | src/tinysvcmdns.c:589-602 | known answers on which the code and the rule differ: another address, an odd time to live, a second copy |
| MdnsLists.UnsuppressedMembers | src/tinysvcmdns.c:1351-1378 | what is left is exactly the answers not suppressed, without duplicates |
| MdnsLists.RrList.Append | src/tinysvcmdns.c:416-444 | the linked list grows by one new node behind the others, or not at all if the record is in it |
| MdnsLists.RrList.RemoveKnown | src/tinysvcmdns.c:1351-1378 | unlinking in place, head and middle nodes alike, equals a filter that keeps the order |
| MdnsResponder.Populate | src/tinysvcmdns.c:1238-1265 | appends exactly the stored records for a name and type, NSEC left out for ANY, and counts the new ones |
| MdnsResponder.Reply.AddRelated | src/tinysvcmdns.c:1268-1297 | both sweeps, the second over the very list it extends; it terminates because duplicates are refused and the store is finite |
| MdnsResponder.AdditionalIsLeastClosure | src/tinysvcmdns.c:1381-1385 | the additional list has no duplicates, covers all that relates to the answers, is closed under "related", and is the least such set |
| MdnsResponder.RelatesToIs | src/tinysvcmdns.c:1268-1297 | which records relate to an answer, by the numbers of their types |
| MdnsResponder.CollectedMembers | src/tinysvcmdns.c:1331-1348 | the collected records are exactly those some multicast question selects |
| MdnsResponder.AnswersAreExact | src/tinysvcmdns.c:1317-1390 | the answers are, without duplicates, the stored records asked for and not suppressed |
| MdnsResponder.AnswersByRule | src/tinysvcmdns.c:1317-1390 | if the asker's records can be told apart, the answers are exactly the stored records asked for that it does not know by the rule |
| MdnsResponder.OneQuestionInOrder | src/tinysvcmdns.c:1331-1378 | one question is answered in the order in which the records were added |
| MdnsResponder.ReplyReachesAsker | src/tinysvcmdns.c:1317-1390 | encoded and parsed by the asker, a reply whose pointers lead to the names in its answers holds exactly the answers in order, if and only if all of them can be parsed |
| MdnsQueries.QuestionRoundTrip | src/tinysvcmdns.c:676-710 | a question laid out as name, type and class with the unicast bit on top parses back to that name, type and bit, with the size that leads to what follows, if and only if its pointer leads to its name |
| MdnsQueries.QueryRoundTrip | src/tinysvcmdns.c:849-906 | a query of any length comes through, with all questions and the known answers behind them, if and only if its pointers lead to their names and no known answer holds a 63-byte string |
| MdnsQueries.LowQuery | src/tinysvcmdns.c:921 | the pointers do in a query of up to 0x4000 bytes |
| MdnsQueries.QueryAnswered | src/tinysvcmdns.c:1300-1392 | from the bytes of the query: the answers are the stored records of the names asked for, of the type asked for or of any but NSEC, less those that the known answers suppress; unicast questions do not count |
| MdnsQueries.QueryAnsweredByRule | src/tinysvcmdns.c:1300-1392 | if the records can be told apart, less those that the asker knows by section 7.1 of RFC 6762 |
| MdnsQueries.EveryTargetFound | src/tinysvcmdns.c:1351-1378 | a PTR asked for is missing from the answers if and only if its own target was named, the first time with at least half its time to live |
| MdnsQueries.AskedAndHeard | src/tinysvcmdns.c:1300-1392 | from the bytes of the query to what the asker makes of the bytes of the reply: the records it asked for and did not suppress, under its identifier |
| MdnsResponder.StandardQueryIs | src/tinysvcmdns.c:1323 | what is answered at all: flags with the top five bits clear |
| MdnsResponder.Reply.Init | src/tinysvcmdns.c:641-662 | an empty response with the query's identifier |
| MdnsResponder.Reply.Collect | src/tinysvcmdns.c:1331-1348 | the answer list is what was collected and its 16-bit count is the length |
| MdnsResponder.Reply.ProcessPacket | src/tinysvcmdns.c:1317-1390 | a standard query leaves the specified answers and additional records with counts equal to the list lengths in 16 bits; anything else changes nothing |
| PlayerSlots.IdxOfSeq | src/player.c:116 | the slot depends on the 16-bit sequence number only |
| PlayerSlots.PlaceIsExact | src/player.c:139-144 | while the window fits the ring, the 16-bit tests tell expected, newer, late and too late packets apart exactly |
| PlayerSlots.MarkedElsewhere | src/player.c:474-484 | marking a gap touches no slot of the window before it, nor the ones behind it |
| PlayerWindow.SlotOfWindow | src/player.c:456-522 | on every run a slot of the window holds the latest packet accepted for its number, or is not ready, or is stale: it still holds one at least 1024 numbers back |
| PlayerWindow.AllHoldMeans | src/player.c:456-522 | all slots of the window hold what they should exactly when none is stale |
| PlayerWindow.KeptFilled | src/player.c:488-521 | storing a packet, late or next, keeps this and disturbs no other number of the window |
| PlayerWindow.KeptMarked | src/player.c:474-484 | so does marking a gap |
| PlayerWindow.KeptCrossed | src/player.c:470-487 | so does moving the write pointer over an unmarked gap across the wrap-around |
| PlayerWindow.NoneStaleUnmarked | src/player.c:470-487 | which leaves no slot stale exactly when none in the gap is ready |
| PlayerWindow.KeptReleased | src/player.c:1434-1445 | so does freeing the slot under the read pointer |
| PlayerResends.LaterStart | src/player.c:540-550 | a search from a remembered place finds the same number of missing packets exactly if none is missing before it |
| PlayerResends.RequestsCountStamped | src/player.c:588-622 | the counts of all requests add up to the number of packets newly stamped |
| PlayerResends.RequestsNameStamped | src/player.c:588-622 | the requests name exactly the stamped packets if and only if no packet left alone stands between two due ones of a stretch |
| PlayerResends.StampedSlot | src/player.c:588-600 | exactly the due slots are stamped, and only their resend fields change |
| PlayerResends.DueIs | src/player.c:566-590 | where times do not wrap, a missing packet is asked for if and only if it has been missed for the minimum wait, was not asked for within the repeat interval, and enough of the latency remains |
| PlayerResends.NoticedIs | src/player.c:474-484 | a packet noticed missing is asked for from the minimum wait after that on |
| PlayerResends.NotAskedAgain | src/player.c:560-600 | a packet asked for is not asked for again within the repeat interval |
| PlayerSafety.HeldMeans | src/player.c:456-522 | in every sane state the slots of the window hold exactly the latest packets accepted for their numbers if and only if none is stale, and the window fits the ring |
| PlayerSafety.EnteredSane | src/player.c:456-522 | storing any packet that fits the window, late, next or newer, keeps the buffer sane; all slots go on holding what they should if and only if a gap across the wrap-around contains no ready one |
| PlayerSafety.StoringSane | src/player.c:443-522 | so does a first packet, and one that takes the number expected next |
| PlayerSafety.SearchComplete | src/player.c:540-626 | the search finds all that is missing in the window if and only if nothing is missing before the place it starts at; and then the place it remembers is a sound one |
| PlayerSafety.StoringUsable | src/player.c:443-550 | storing a packet leaves nothing missing before a sound place, unless it is undecodable and lands on a ready slot |
| PlayerSafety.FlushedSane | src/player.c:926-1072 | every flush, whatever slots are missing, keeps the buffer sane, all slots right and the remembered place sound |
| PlayerSafety.SkippedSane | src/player.c:1075-1106 | so does skipping |
| PlayerSafety.UnderReadPointer | src/player.c:1124-1131 | a ready slot under the read pointer holds its own number, or one at least 1024 back, to which the pointer then goes |
| PlayerSafety.Handover | src/player.c:1434-1446 | handing out the slot under the read pointer gives the packet accepted for that number or silence, once and in order, and disturbs nothing else |
| PlayerSafety.WholeFlushed | src/player.c:926-1072 | in a buffer that is one stream of frames, a flush to an earlier timestamp has no effect, one not behind the last frame leaves exactly the frames from it on, one just behind empties the buffer, and a later one empties it and stays pending; no slot is too short |
| PlayerSteps.FilledIs | src/player.c:496-521 | a bad packet leaves its slot as one just noticed missing, and that as one never used but for the time; a good one is not waited for any longer |
| PlayerSteps.ClearedIs | src/player.c:122-137 | a slot of an emptied buffer is as one never used but for the old timestamp and data |
| PlayerSteps.StopMeans | src/player.c:973-993 | the loop stops at the first slot that does not end before the flush timestamp, inside the window |
| PlayerSteps.FlushedCases | src/player.c:926-1072 | which of its cases a flush request meets: it drops packets, empties the buffer or does nothing, and stays pending or not |
| PlayerSteps.SkipTo | src/player.c:1075-1106 | everything skipped is missing or out of date; the first frame that is neither stops it, or a write pointer that is no longer the larger number |
| PlayerSteps.SkippableIs | src/player.c:1075-1106 | out of date means the earlier timestamp, within 2^31 frames |
| PlayerBuffer.PlayerBuffer.constructor | src/player.c:1890-1896 | a new buffer is in the initial state and sane |
| PlayerBuffer.PlayerBuffer.MarkMissing | src/player.c:470-484 | the gap loop marks the slots after the write pointer, or none for a gap that is not positive |
| PlayerBuffer.PlayerBuffer.Place | src/player.c:456-494 | the 16-bit tests find the slot of a packet, mark the gap before it and move the write pointer, as the unwrapped numbers say |
| PlayerBuffer.PlayerBuffer.Store | src/player.c:456-522 | takes the state to the one specified for a stored packet |
| PlayerBuffer.PlayerBuffer.Begin | src/player.c:445-451 | the first packet starts a new numbering and changes no slot |
| PlayerBuffer.PlayerBuffer.Start | src/player.c:540-550 | the search starts at the remembered place if that lies in the window, and at the read pointer otherwise |
| PlayerBuffer.PlayerBuffer.Search | src/player.c:540-626 | stamps exactly the due packets from there on, requests what is specified, as many packets as it stamps, and remembers the first missing one |
| PlayerBuffer.PlayerBuffer.Put | src/player.c:443-628 | every slot, the window, the accepted packets, the number missing, and the requests are those specified; the counts of all requests add up to the packets newly stamped; for every packet that fits the window the buffer stays sane |
| PlayerBuffer.PlayerBuffer.Resync | src/player.c:122-137 | empties the buffer |
| PlayerBuffer.PlayerBuffer.DropTo | src/player.c:971-1005 | whatever the slots hold, drops those that end before the flush timestamp up to the first that does not, and the frames before it in that one, or reports that it has too few; it never leaves the window |
| PlayerBuffer.PlayerBuffer.Examine | src/player.c:937-1047 | the tests on the two end slots, as specified |
| PlayerBuffer.PlayerBuffer.Flush | src/player.c:926-1072 | takes the state to the one specified for a flush, in all cases, or reports an overrun exactly if there is one |
| PlayerBuffer.PlayerBuffer.RequestFlush | src/player.c:3512-3520 | records the request and leaves the buffer as it is |
| PlayerBuffer.PlayerBuffer.Skip | src/player.c:1075-1106 | takes the state to the one specified for skipping |
| PlayerBuffer.PlayerBuffer.Take | src/player.c:1107-1446 | whatever the slots hold: the read pointer takes the number in its slot if that is another with the same index, and the slot is handed out exactly when there is nothing to wait for |
| PlayerBuffer.PlayerBuffer.Release | src/player.c:1107-1446 | on every run that branch is taken if and only if the slot under the read pointer is stale, and the pointer then goes back 1024 numbers or more; otherwise the state is the one specified |
| PlayerBuffer.PlayerBuffer.NextFrame | src/player.c:867-1447 | one pass: flush, skip and hand out; the whole new state, the frame and what it reports are those specified |
| PlayerRun.FlushPasses | src/player.c:926-1072 | a flush drops only packets that end before its timestamp, and of the accepted packets changes only the one it stops at |
| PlayerRun.GetPasses | src/player.c:867-1447 | the numbers one pass moves over without handing out were dropped by a flush, or are missing or out of date; it changes no accepted packet otherwise |
| PlayerRun.HandedOutWhen | src/player.c:1107-1446 | no frame is handed out before its time unless it is silent, none while the buffer fills, and every number of the window when it is time and the buffer has filled |
| PlayerRun.StepSafe | src/player.c:443-1447 | every event keeps a state safe, all slots right if and only if its gap is safe, and the remembered place sound unless an undecodable packet lands on a ready slot |
| PlayerRun.RunSafe | src/player.c:443-1447 | on every run of arrivals, flush requests and passes every state is safe: the window is ordered and fits the ring, and numbers have been handed out once each, in order, with the packet accepted for them or as silence; all slots hold what they should throughout if and only if every gap across the wrap-around is safe; every search is complete until an undecodable packet lands on a ready slot |
| PlayerRun.NeverBack | src/player.c:1124-1131 | if every gap is safe, no pass ever takes the read pointer back |
| PlayerRun.AcceptedIsLatest | src/player.c:443-1447 | on every run of a new buffer, a packet is accepted for a number if and only if the latest one that arrived for it in time could be decoded, and it is that packet, or what flushes have left of it; without flush requests it is that packet itself |
| PlayerRun.Step | src/player.c:443-1447 | the class takes every event as specified, and how a run ends is decided by the state before it |
| PlayerRun.Play | src/player.c:443-1447 | any sequence of events from any valid buffer takes it through the specified states, finding and asking for what is specified, to the end of the sequence or to the event at which the run ends |
| PlayerExamples.OrderLost | src/player.c:1124-1131 | a run of a new buffer on which packet 64511 is handed out after 64512, and 64512 is next again with its slot empty |
| PlayerExamples.FlushDropped | src/player.c:1048-1055 | a run on which a flush request is dropped and an earlier frame stays |
| PlayerExamples.FlushOverrun | src/player.c:994-1005 | a run that ends with 2^31 - 1 frames removed from an empty slot |
| PlayerExamples.WrongPacketsAskedFor | src/player.c:588-622 | a run on which the request names a packet that is not due and misses one that is |
| PlayerFlush.TimestampAt | src/player.c:944-945 | in a contiguous buffer each timestamp is that of the first frame plus the frames between, modulo 2^32 |
| PlayerFlush.FlushCases | src/player.c:940-961 | the int32 differences of the code tell exactly whether the flush frame is before, in, just behind or beyond the buffer |
| PlayerFlush.ReachingStep | src/player.c:973-993 | a packet is dropped exactly if it ends before the flush frame, so the loop stops inside the window |
| PlayerFlush.StreamTrimmed | src/player.c:994-1005 | dropping packets and the first frames of one drops exactly that many frames of the stream |
| PlayerFlush.TrimFits | src/player.c:994-1005 | the slot the loop stops at has fewer frames than are removed from it if and only if it is empty and stamped 2^31 - 1 frames before the flush timestamp |
| PlayerStream.DropExact | src/player.c:971-1005 | in a buffer that is one stream of frames, exactly the frames at or after the flush timestamp remain, with data unchanged |
| PlayerStream.EndSlots | src/player.c:926-961 | the tests on the two end slots tell where the flush timestamp lies in such a buffer |
| PlayerSamples.ScaledFits | src/player.c:656-664 | sample times volume fits 64 bits for every volume up to 0x10000 |
| PlayerSamples.Dithered | src/player.c:720-731 | dither is added with saturation and stays in 64 bits |
| PlayerSamples.DitherWithinOneStep | src/player.c:682-731 | dither moves an output sample by one step at most, in every format |
| PlayerSamples.BytesStandForSample | src/player.c:735-859 | in all thirteen formats the bytes stand for the shifted sample |
| PlayerSamples.FullVolumeIsExact | src/player.c:739-767 | at full volume without dither the 32-bit formats reproduce every sample |
| PlayerSamples.ConvertedIs | src/player.c:641-859 | in every format, at every volume, with dither or without: sample times volume at 64 bits, moved by the difference of two random numbers of up to a step and kept in 64 bits, is rounded down to the steps of the format |
| PlayerSamples.VolumeIsApplied | src/player.c:660-661 | without dither what the bytes stand for is sample times volume in units of 2^16, rounded down, at every volume and width |
| PlayerSamples.PacketIsExact | src/player.c:1467-1516 | so does a whole packet, sample by sample |
| PlayerSamples.PacketAtVolume | src/player.c:1467-1516 | so does every sample of a packet at any volume |
| PlayerSamples.Mean | src/player.c:1449-1457 | the mean lies between its arguments and within half a unit of the exact one |
| PlayerSamples.PlaceIs | src/player.c:1479-1483 | every interior frame can be the one inserted or left out, each by as many random numbers as any other |
| PlayerSamples.StuffedFrames | src/player.c:1479-1512 | the output frames are the input in order with one interior frame left out, or one added that is the mean of its neighbours |
| PlayerSamples.Converter.ProcessSample | src/player.c:641-859 | writes exactly the bytes of one sample and remembers the random number |
| PlayerSamples.OutputFits | src/player.c:1991-2014 | the output buffer holds a stuffed packet of up to the most frames, in every format |
| PlayerSamples.Converter.StuffBufferBasic | src/player.c:1467-1516 | writes exactly the bytes of the stuffed packet, within the output buffer as it is allocated, and returns length plus stuffing |
| PlayerStatistics.SumsWithoutFirst | src/player.c:3226-3237 | taking the oldest entry off the sums leaves the sums of the rest |
| PlayerStatistics.DriftTelescopes | src/player.c:3242-3249 | drifts add up to the change of sync error less the corrections in between |
| PlayerStatistics.DriftOfLatest | src/player.c:3242-3252 | the running drift sum is the difference of the end-point sync errors less the corrections in between |
| PlayerStatistics.Statistics.Record | src/player.c:3225-3263 | the circular buffer and the running sums are those of the last 1003 entries after every frame |
| PulseQueue.Written | src/audio_pa.c:264-279 | bytes written behind the queue, wrapped or not, lengthen it and disturb nothing |
| PulseQueue.Taken | src/audio_pa.c:387-411 | taking bytes off the front, wrapped or not, leaves the rest in place |
| PulseQueue.PulseQueue.Play | src/audio_pa.c:255-285 | the queue grows by the bytes written, pointers resting at the end of the buffer included |
| PulseQueue.PulseQueue.StreamWrite | src/audio_pa.c:366-418 | whatever the rounds, what is delivered is the front of the queue, in order, and as many bytes as are requested, queued and granted |
| PulseQueue.TransferredIs | src/audio_pa.c:366-418 | what is delivered is the least of what is wanted, what is queued and the room granted |
| PulseQueue.PulseQueue.Flush | src/audio_pa.c:311-323 | empties the queue |
| DacpVolume.RelativeIsExact | src/dacp.c:1350-1352 | rounding to a whole per cent and back gives the same volume, and at most 100 per cent |
| DacpVolume.GetVolume | src/dacp.c:1231-1247 | the volume of the last speaker listed with our number, scaled and rounded |
| DacpVolume.HighestOther | src/dacp.c:1325-1332 | the highest relative volume of the other active speakers |
| DacpVolume.SetVolume | src/dacp.c:1267-1372 | the commands sent make the volume read back exactly, and never put the overall volume below another active speaker's |
| ActivityMonitor.StepKeepsInvariant | src/activity_monitor.c:98-227 | every step of either thread keeps the invariant |
| ActivityMonitor.RunInvariant | src/activity_monitor.c:98-227 | in every reachable state inactive means not playing, activations less deactivations are 1 unless inactive, and with no timeout nothing times out |
| ActivityMonitor.HooksMatchPlayer | src/activity_monitor.c:114-128 | no deactivation while the player is active and no activation while it is not, one at a time |
| ActivityMonitor.MonitorDoesNotSpin | src/activity_monitor.c:159-227 | the monitor is waiting again, or in the stop hook, after two looks at the state at most; in the inactive case at once |
| ActivityMonitor.StartsAtOnce | src/activity_monitor.c:114-118 | signified activity makes the change that goes with the start hook at once, unless active already |
| ActivityMonitor.StopsInTime | src/activity_monitor.c:159-227 | with no timeout the signal makes the change that goes with the stop hook; otherwise the next turn of an idle player reaches the timed wait if and only if the thread is not waiting for activity, and only a timed-out turn there makes the change, once |
| ActivityMonitor.ShortActivityMissed | src/activity_monitor.c:165-167 | a run on which the start hook has run and the stop hook never does, however often the thread is woken up |
| ActivityMonitor.ActivityMonitor.SignifyActivity | src/activity_monitor.c:98-134 | refines the specified step |
| ActivityMonitor.ActivityMonitor.TakeTurn | src/activity_monitor.c:159-227 | refines the specified turn of the monitor thread |

## Left out

- AlacFrame.AlacFile.DecodeFrame: frames that an encoder cannot lay out (prediction types other than 0, quantisation 0, 20 and 32 bits, blocks longer than the announced maximum or shorter than the filter, run lengths past the block); three readable bytes behind the frame are required, as the bit reader loads them.
- AlacFrame.AlacFile.DecodeFrame: a mono frame in a stereo stream, which leaves every second sample of the output as it was; streams whose largest frame has 2^31 bytes or more; a multiplier of 0, with which the history can become 0; frames on whose own residuals the product of history and multiplier overflows int32, which is undefined.
- AlacFrame.AlacFile.DecodeFrame: the input is a sequence of bytes, since the code only reads it; the second check of the output size in the code is shown to be dead.
- AlacPredictor.DecompressFirAdapt: table entries beyond the order of the filter, which the code never uses; the buffers must be longer than the order, since the code writes that many warm-up samples.
- AlacRice.EntropyRiceDecode: encodable streams only, hence zero runs that fit the block; the branch for longer runs is shown to be dead on them; sample sizes above 30 bits, for which int32 is too narrow and which no frame carries.
- MdnsRecords.RecordRoundTrip: the class comes back as the parser masks it, not as it was sent; SRV and NSEC data are skipped, as the parser does.
- MdnsPackets.PacketRoundTrip: the additional records are written but not parsed, as in the source; a record whose data has 0x10000 bytes or more.
- MdnsPacketCodec.EncodePacketAt: the array must hold the whole packet, since the code writes each record before it compares the length with the one announced.
- MdnsPacketCodec.ParsePacketAt: packets whose names run past the buffer or point in a circle, which the source reads without checking.
- MdnsQueries.QueryRoundTrip: queries with authority or additional records, which the source does not parse.
- AlacSignLms.CoefficientMoves: samples wider than 25 bits, which no frame carries.
- AlacSignLms.PredictionIsNearest: sums that leave int32, for which `AlacSignLms.TapSumIsDot` says what is computed.
- PlayerResends.DueIs: a latency longer than the time since the clock started, for which the differences of the source wrap.
- MdnsNames.RawInjective: names whose labels contain NUL, since the source keeps names as C strings.
- MdnsStore.Store.Add: the records of a group and the groups are sequences in fields; the lists of a reply are linked nodes.
- MdnsResponder.Reply.ProcessPacket: freeing of list nodes; the debug names; the announcement of a service, which runs the same two sweeps.
- PlayerBuffer.PlayerBuffer.Put: windows above 1024 packets, in which slots are overwritten before they are read.
- PlayerBuffer.PlayerBuffer.Put: the mutex is released while a resend request is sent; here a put is one atomic step.
- PlayerBuffer.PlayerBuffer.Put: a flush request made before the first packet, which the source cancels; decoding is an input; the diagnostic status bits, counters and flow-control signal are not modelled; the connection is open for output.
- PlayerBuffer.PlayerBuffer.Release: when buffering ends and when a frame is due are inputs; silence sent ahead of the first frame is not modelled, nor what the player thread does to a slot once it has played it.
- PlayerBuffer.PlayerBuffer.Skip: the frame that should be playing is an input and constant within one pass.
- PlayerBuffer.PlayerBuffer.Flush: what the code does once it has removed more frames from a slot than it has, which is undefined; flush requests made by the output device.
- PlayerRun.RunSafe: what happens after the read pointer has gone back or a flush has overrun its slot, apart from `OrderLost`; a run also ends at a packet that takes the window over 1024 packets.
- PlayerSamples.Converter.StuffBufferBasic: input samples are a sequence; the host is little-endian; the random numbers are an input.
- PulseQueue.PulseQueue.StreamWrite: corking, and the occupancy update that the source makes outside its mutex; PulseAudio grants no more than is asked for.
- PulseQueue.PulseQueue.Play: writes that do not fit, which the source does not guard against.
- ActivityMonitor.RunInvariant: the hooks run after the mutex is released, so their order is stated on the changes of state.
- DacpVolume.SetVolume: failing requests to the server; the effect of a new overall volume on other speakers' relative volumes.
- AES, RSA, the Apple decoder, resampling, convolution, loudness, metadata, D-Bus, MQTT and the other audio back ends are not part of this model.
- Clock conversion (`frame_to_local_time`, `local_time_to_frame`) is not part of this model.
