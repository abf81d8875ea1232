# A verified model of WinSCP's self-contained algorithms

This Dafny project models the parts of WinSCP's non-visual core that rewrite strings and buffers in
place, keep running totals, or move a cursor over a growing log, and proves what those parts are
for. Each algorithm is modelled as the code has it (arrays, indices, loops, fields that methods
reassign) and proved against a short functional description; the theorems are then about that
description. What a description itself says is pinned by lemmas that speak of literal characters,
bytes and numbers: which field a pattern stands for, where a byte of a key comes from, what is kept,
spelled or taken off.

| files | component |
|---|---|
| `Bytes`, `HmacSha1`, `KeyDerivation`, `CtrStream`, `FileEncryption` | password cryptography: incremental HMAC-SHA1, PBKDF2, CTR streaming, sealing and verifiers |
| `ScrambleTable`, `PasswordScramble` | the chained scramble cipher with padding |
| `FileBuffer`, `EolProperties` | end-of-line conversion inside a buffer |
| `TransferCounters`, `Throttling`, `FileOperationProgress` | transfer accounting and the speed limit |
| `CommandLine`, `TokenCutting`, `ChildCommandLine`, `CommandLineTokens` | quoting arguments and cutting command lines |
| `Hexadecimal`, `UrlEncoding` | URL encoding |
| `FileNames`, `FileNameProperties`, `FileNameEditing`, `FileNameCharacters` | names that Windows cannot hold |
| `FileMasks`, `FileMaskProperties`, `FileMaskCuts`, `FileMaskRoundTrip`, `FileMaskLists`, `FileMaskPatterns` | lists of file masks written as one string |
| `CustomCommands`, `CustomCommandHygiene`, `CustomCommandPasses`, `CustomCommandPatterns` | command templates expanded in two passes |
| `LogNodes`, `LogMessages`, `LogTrees`, `LogReaders` | readers nested over one growing XML log |
| `Basics` | optional values, bytes, C strings, concatenation, products |

Conventions. Positions count from 0 where the C++ code counts from 1. An exception is a result
(`None`, `ok == false`, an `Outcome`). What the code gets from elsewhere is a parameter: the hash
and the block cipher, random bytes, the clock, the user's answers, whether a mask is accepted, when
the log file grows. Ghost parameters of loop methods name the text already done and the text still
ahead.

Where a property does not hold for all inputs, the exact condition is proved, as an equivalence
whose right side a caller can check beforehand:

- a name stored and restored (`RestoresExactly`): unless it ends in `%20`, `%2E` or `%2e`, or holds a
  `%00` that looks like the one inserted into reserved names;
- quoted arguments (`QuotingRoundTrip`): unless an argument consists of quotes only, the empty one
  included;
- a scrambled password (`UnscrambleScramble`): up to 999 bytes, because the length is kept in three
  digits;
- LF to CRLF in any number of buffers (`CutsShow`): unless a cut stands behind a CR and what follows
  is not a LF with a byte behind it that needs no attention;
- four mask lists (`RoundTripsExactly`): if every mask is nonempty, trimmed, accepted and ends in no
  slash, the names of file masks end in no slash, and directory masks hold no size and no time;
- a value in a command template (`ValueIsKept`): unless it holds an exclamation mark behind a zero
  character, where `wcschr` no longer looks;
- sealed data (`SealThenOpen`): unless it is empty, since opening wants more than salt and code;
- a name with a replacement character (`ReplacedIsTaken`): Windows takes it exactly if that character
  can stand wherever it has to;
- the totals of a run (`BytesConserved`): unless a file is left with more bytes transferred than its
  size, and they are then off by exactly those bytes.

Where code and comments differ, the model follows the code. `TEXT_TOKEN` is written as an octal
escape, so it is U+00AD, and an exclamation mark before a soft hyphen counts as text. The slash that
`CreateMask` inserts for directory-only lists goes before the last character of the mask. A message
without text does not become the error of a failure, the first message with text does.

## Model

| member | source | states |
|---|---|---|
| HmacSha1.HmacCtx.Key | source/core/Cryptography.cpp:73-89 | feeding a further part of the key leaves the context as if the whole key so far had been fed at once, across the switch from storing to hashing at 64 bytes |
| HmacSha1.HmacCtx.Data | source/core/Cryptography.cpp:93-122 | the same for data, the first call also ending the key |
| HmacSha1.HmacCtx.End | source/core/Cryptography.cpp:125-148 | the code returned is HMAC-SHA1 (section 2 of RFC 2104) of the key and data fed, cut to the wanted length |
| HmacSha1.HmacOfParts | source/core/Cryptography.cpp:67-148 | however key and data are split into calls, the result is HMAC-SHA1 of the two concatenations |
| HmacSha1.HmacBytes | source/core/Cryptography.cpp:93-148 | the code of a key of up to 64 bytes, byte by byte: the key padded with zeros, xored with 0x36 in front of the text and with 0x5c in front of the inner hash |
| HmacSha1.HmacLongKey | source/core/Cryptography.cpp:73-89 | a longer key counts as its hash |
| KeyDerivation.MixingPass | source/core/Cryptography.cpp:257-269 | one pass of the inner loop: the next U is HMAC of the last one (of the salt and block number the first time), xored into the running sum, with k ending as the next input length |
| KeyDerivation.KeyBlock | source/core/Cryptography.cpp:242-269 | one block is F of section 5.2 of RFC 2898: the xor of all its iterations |
| KeyDerivation.CompileBlock | source/core/Cryptography.cpp:271-274 | a block is copied to its place, cut at the end of the key, and nothing else changes |
| KeyDerivation.DeriveKey | source/core/Cryptography.cpp:217-276 | the key is exactly PBKDF2-HMAC-SHA1 (section 5.2 of RFC 2898) for every password, salt, key length and iteration count of at least one, partial last block included |
| KeyDerivation.IntIsBigEndian | source/core/Cryptography.cpp:249-252 | the four bytes that stand for a block number are its big-endian spelling |
| KeyDerivation.KeyByte | source/core/Cryptography.cpp:217-276 | byte m of a key is the xor of the bytes m mod 20 of a chain of codes, the first one of the salt and the big-endian number m / 20 + 1, each next one of the last |
| CtrStream.SwapWordsBytes | source/core/Cryptography.cpp:157-182 | the swap reverses the bytes of each of the four words |
| CtrStream.AesBlockBytes | source/core/Cryptography.cpp:157-182 | the bytes as they go into the core and as they come out, all sixteen spelled out |
| CtrStream.AesEncryptBlock | source/core/Cryptography.cpp:157-182 | encryption in place of the four words, with the byte order swapped before and after |
| CtrStream.IncrementNonce | source/core/Cryptography.cpp:285-288 | the loop with carry increments the first eight bytes as one number and leaves the rest |
| CtrStream.IncrementValue | source/core/Cryptography.cpp:285-288 | incrementing adds one to the little-endian value, modulo its range |
| CtrStream.CounterBlockValue | source/core/Cryptography.cpp:278-298 | after n blocks the counter holds n modulo 2^64 in little-endian order, padded with zeros |
| CtrStream.CtrState.EncrData | source/core/Cryptography.cpp:278-298 | byte p since the start is xored with byte p mod 16 of the encrypted counter block p/16 + 1 (section 6.5 of NIST SP 800-38A), whatever the position a call starts at |
| CtrStream.CtrByte | source/core/Cryptography.cpp:278-298 | the same for any counter block that reads as that number from its low eight bytes and is zero behind |
| CtrStream.EncryptParts | source/core/Cryptography.cpp:278-298 | the result does not depend on how the data is split into calls |
| CtrStream.CtrInvolution | source/core/Cryptography.cpp:339-351 | a second pass with the same key restores the data |
| FileEncryption.FcryptCtx.constructor | source/core/Cryptography.cpp:300-335 | the context starts with the first derived key for the stream at position zero and the second for authentication |
| FileEncryption.KeysOf | source/core/Cryptography.cpp:300-330 | 1000 iterations over salts of 8, 12 or 16 bytes; the first 16, 24 or 32 bytes encrypt and the next as many authenticate, for each of the three modes |
| FileEncryption.FcryptCtx.Encrypt | source/core/Cryptography.cpp:339-343 | in any of a series of calls, the data is encrypted as the next part of one stream, then authenticated behind what was authenticated before |
| FileEncryption.FcryptCtx.Decrypt | source/core/Cryptography.cpp:347-351 | in any of a series of calls, the data is authenticated as received, then decrypted as the next part of one stream |
| FileEncryption.FcryptCtx.End | source/core/Cryptography.cpp:355-360 | the code is the cut HMAC of all data authenticated |
| FileEncryption.EncryptWithMac | source/core/Cryptography.cpp:382-400 | a salt is made if none is given; output and code belong to that salt |
| FileEncryption.Seal | source/core/Cryptography.cpp:402-410 | the output is salt, encrypted data and code in a row |
| FileEncryption.SealedBytes | source/core/Cryptography.cpp:402-410 | sealed data is 16 bytes of salt, as many bytes as went in, and the first ten bytes of the code of what is in between |
| FileEncryption.DecryptWithMac | source/core/Cryptography.cpp:412-429 | accepted exactly if the code is that of the encrypted data |
| FileEncryption.SplitJoined | source/core/Cryptography.cpp:436-446 | splitting undoes joining for every salt and code of the right length |
| FileEncryption.Open | source/core/Cryptography.cpp:431-448 | accepted exactly if longer than salt and code and the code fits |
| FileEncryption.SealThenOpen | source/core/Cryptography.cpp:402-448 | sealed data opens, to what was sealed, exactly if it was not empty |
| FileEncryption.CreateVerifier | source/core/Cryptography.cpp:450-460 | a verifier is salt, dummy and the code of the encrypted dummy |
| FileEncryption.Verify | source/core/Cryptography.cpp:462-476 | a verifier shorter than the salt is never accepted, whatever is read behind it; any other exactly if the code in it is the one recomputed from its salt and dummy |
| FileEncryption.CreateThenVerify | source/core/Cryptography.cpp:450-476 | the password that made a verifier is accepted by it; another exactly if the codes collide |
| ScrambleTable.TableIsPermutation | source/core/Cryptography.cpp:478-496 | the table is a permutation of the bytes that fixes zero |
| PasswordScramble.InitializeUnscrambleTable | source/core/Cryptography.cpp:579-588 | the loop builds the inverse of the table |
| PasswordScramble.UnchainChain | source/core/Cryptography.cpp:521-550 | the two chainings modulo 255 cancel out, and no zero byte appears in between |
| PasswordScramble.OwnLengthFits | source/core/Cryptography.cpp:558-566 | the length read back passes the check against multiples of 17 exactly if it needed only three digits |
| PasswordScramble.PasswordInPlainText | source/core/Cryptography.cpp:552-577 | taken from behind padding and digits, the password is found exactly if shorter than 1000 bytes |
| PasswordScramble.TextLayout | source/core/Cryptography.cpp:504-520 | 1 to 17 bytes of padding up to a multiple of 17, three digits that spell the length modulo 1000 backwards, and the password |
| PasswordScramble.ScrambledAt | source/core/Cryptography.cpp:521-528 | each byte of the result is an entry of the table, at a place given by the sum of all bytes up to there |
| PasswordScramble.TakenExactly | source/core/Cryptography.cpp:552-576 | a password is found in unchained text exactly if it follows three characters behind the first digit that spell its length with signed arithmetic, and the whole is the next multiple of 17 |
| PasswordScramble.FirstDigit | source/core/Cryptography.cpp:552-556 | looking for the length stops at the first of the characters 48 to 57, or at a zero |
| PasswordScramble.ScramblePassword | source/core/Cryptography.cpp:501-533 | padding, length digits and password are written into the buffer and chained in place; the result holds no zero byte |
| PasswordScramble.UnscramblePassword | source/core/Cryptography.cpp:535-577 | the buffer unchained in place, padding skipped, digits read and checked: the result on every input, malformed ones included |
| PasswordScramble.UnscrambleScramble | source/core/Cryptography.cpp:501-588 | for every padding the random loop can choose: the password comes back if shorter than 1000 bytes, and nothing otherwise |
| PasswordScramble.ScrambleThenUnscramble | source/core/Cryptography.cpp:501-588 | the same for the methods, with the table of the code |
| FileBuffer.TFileBuffer.Strip | source/core/FileBuffer.cpp:103-112 | a byte order mark at the start and a Ctrl-Z at the end are removed if asked for |
| EolProperties.StrippedBytes | source/core/FileBuffer.cpp:103-112 | EF BB BF at the start and 1A at the end go if asked for, each once, and all else stays |
| FileBuffer.TFileBuffer.ConvertOneToAny | source/core/FileBuffer.cpp:121-163 | inserting and deleting while scanning equals the transducer, the carried token and the byte passed over after a deletion included |
| FileBuffer.TFileBuffer.ConvertTwoToAny | source/core/FileBuffer.cpp:164-190 | the same from a two-character end of line |
| FileBuffer.TFileBuffer.Convert | source/core/FileBuffer.cpp:97-191 | stripping and then one of the two conversions, or none if the ends of line are equal |
| EolProperties.ToCrlfIsExpand | source/core/FileBuffer.cpp:121-163 | without a carried token, LF to CRLF keeps CRLF, expands a bare LF and expands a final lone CR |
| EolProperties.LfToCrlf | source/core/FileBuffer.cpp:121-163 | LF to CRLF with and without a token: what a LF at the start does, what is passed over, and that a token is left exactly behind a final CR |
| EolProperties.OtherConversions | source/core/FileBuffer.cpp:114-190 | equal ends of line change nothing, single bytes are replaced one by one, CR is completed to CRLF, CRLF shrinks, each described on its own; which of them touch the token |
| EolProperties.ScanIdempotent | source/core/FileBuffer.cpp:121-163 | converting twice changes nothing more |
| EolProperties.CutShows | source/core/FileBuffer.cpp:121-163 | converting two buffers equals converting them joined exactly under a condition on the bytes around the cut |
| EolProperties.CutsShow | source/core/FileBuffer.cpp:121-163 | the same for any number of buffers, each cut judged on what is left once the passed byte is taken off |
| EolProperties.ThisCutShows | source/core/FileBuffer.cpp:135-141 | CR, LF, LF cut behind the CR comes out differently |
| EolProperties.RoundTrip | source/core/FileBuffer.cpp:97-191 | text free of CR, converted to CRLF, comes back for every way of cutting it into buffers |
| EolProperties.RoundTripsExactly | source/core/FileBuffer.cpp:97-191 | it comes back for every way of cutting exactly if it was free of CR |
| EolProperties.ConvertThereAndBack | source/core/FileBuffer.cpp:97-191 | the methods, with arbitrary cuts: any text comes out as its buffers converted one by one say, and as it was if it is free of CR |
| TransferCounters.RunKeepsInv | source/core/FileOperationProgress.cpp:70-427 | nothing is negative in any state of any run, also once the current file is taken back, so both assertions of rollback hold wherever it is called |
| TransferCounters.RunBalance | source/core/FileOperationProgress.cpp:70-427 | over any run, from any state, what the counters account for moves away from the total by exactly the bytes lost |
| TransferCounters.BytesConserved | source/core/FileOperationProgress.cpp:70-427 | over any run whatsoever, transferred, skipped, remaining and pending bytes exceed the total by exactly what was lost, and equal it exactly if no file is left that transferred more than its size |
| TransferCounters.GrowthLosesNothing | source/core/FileOperationProgress.cpp:379-393 | a run in which no size is set below what was transferred loses nothing, however far files grow past their sizes, and no file ends with more transferred than its size |
| TransferCounters.AddTransferedFields | source/core/FileOperationProgress.cpp:379-397 | bytes transferred never exceed the size afterwards; the size grows only to meet them, and a known total grows by as much |
| TransferCounters.AddResumedFields | source/core/FileOperationProgress.cpp:415-421 | what resuming adds, field by field |
| TransferCounters.ClearTransferFields | source/core/FileOperationProgress.cpp:70-84 | what clearing skips is what remained of the file, and which fields it resets |
| TransferCounters.RollbackTransferFields | source/core/FileOperationProgress.cpp:364-377 | rolling back takes off the two totals what they had of the file |
| TransferCounters.TicksTaken | source/core/FileOperationProgress.cpp:397-410 | a sample is taken with the first bytes, a second after the last one, or when the tick count fell; of more than ten the oldest goes |
| TransferCounters.TotalsTaken | source/core/FileOperationProgress.cpp:397-410 | the total transferred is kept with each sample, and goes with it |
| TransferCounters.NoSampleTaken | source/core/FileOperationProgress.cpp:397-410 | within a second of the last one none is taken |
| TransferCounters.ShrunkFile | source/core/FileOperationProgress.cpp:352-362 | in any state, a file that shrinks below what was transferred loses exactly the difference when it is left, and nothing if it grows again first |
| TransferCounters.SomeRunsLose | source/core/FileOperationProgress.cpp:70-84 | a run of four events that loses bytes, and one of five that does not though the size falls below what was transferred |
| TransferCounters.ProgressIsExact | source/core/FileOperationProgress.cpp:179-184 | at any point of any run with a positive total the percentage is between 0 and 100, and 100 exactly when what remains and is pending is no more than what was lost |
| TransferCounters.PercentRoundsDown | source/core/FileOperationProgress.cpp:179-184 | below the total the percentage is the share rounded down |
| TransferCounters.FinishedRunReports100 | source/core/FileOperationProgress.cpp:123-130 | a stopped run with a positive total reports 100 exactly when no more is pending than was lost |
| TransferCounters.RollbackUndoesFile | source/core/FileOperationProgress.cpp:364-377 | after any transfers and resumes in a file, rollback restores both totals to what they were when the file started |
| TransferCounters.ClearConservesExactly | source/core/FileOperationProgress.cpp:70-84 | clearing a file conserves bytes exactly if no more was transferred than its size |
| TransferCounters.UncountedTransferConservesExactly | source/core/FileOperationProgress.cpp:379-413 | transferring without adding to the totals conserves exactly if nothing is transferred |
| FileOperationProgress.TFileOperationProgress.ClearTransfer | source/core/FileOperationProgress.cpp:70-84 | bytes not transferred of the file count as skipped, its counters and the throttle's second are reset; the balance with the total moves only by what was transferred beyond the size |
| FileOperationProgress.TFileOperationProgress.SetTotalSize | source/core/FileOperationProgress.cpp:339-344 | the total is set and known from now on, the balance moves by the change, and nothing becomes negative |
| FileOperationProgress.TFileOperationProgress.SetTransferSize | source/core/FileOperationProgress.cpp:346-350 | the size of the file is set, the balance moves by the change, and nothing becomes negative |
| FileOperationProgress.TFileOperationProgress.ChangeTransferSize | source/core/FileOperationProgress.cpp:352-362 | a changed size moves the total along, if known, so that the balance stays |
| FileOperationProgress.TFileOperationProgress.RollbackTransfer | source/core/FileOperationProgress.cpp:364-377 | in every valid state both assertions hold, what the file added to both totals is taken off again, its size becomes pending and its samples are cleared |
| FileOperationProgress.TFileOperationProgress.AddTransfered | source/core/FileOperationProgress.cpp:379-413 | bytes count for the file and, if asked for, for the total, and only then the balance stays; the size is the larger of its old value and the bytes transferred, a known total grows by as much, and at most ten samples a second apart are kept |
| FileOperationProgress.TFileOperationProgress.AddResumed | source/core/FileOperationProgress.cpp:415-421 | resumed bytes count as skipped and as transferred for the file, not for the total transferred, and the balance stays |
| FileOperationProgress.TFileOperationProgress.AddLocallyUsed | source/core/FileOperationProgress.cpp:252-260 | the local size never stays behind what was used of it, and the balance stays |
| FileOperationProgress.TFileOperationProgress.AddSkippedFileSize | source/core/FileOperationProgress.cpp:423-427 | a skipped file counts as skipped as a whole, by which the balance moves |
| FileOperationProgress.TFileOperationProgress.TotalTransferProgress | source/core/FileOperationProgress.cpp:179-184 | a percentage, and 100 exactly when transferred and skipped bytes have reached a positive total |
| FileOperationProgress.TFileOperationProgress.HandleAll | source/core/FileOperationProgress.cpp:41-427 | any sequence of calls leaves the fields as the run says, and with the total known off by what they were off before and what was lost |
| FileOperationProgress.RunOperation | source/core/FileOperationProgress.cpp:41-427 | from a new object over setting the total and any events to stop: totals off by exactly the bytes lost, and progress 100 exactly when no more is pending than was lost |
| FileOperationProgress.TFileOperationProgress.AdjustToCPSLimit | source/core/FileOperationProgress.cpp:287-326 | without a limit all that was asked for is granted, with one as much of it as the second has left, at least one byte; every second keeps within the limit |
| FileOperationProgress.TFileOperationProgress.ThrottleToCPSLimit | source/core/FileOperationProgress.cpp:277-285 | the loop ends and lets through exactly the size asked for, whatever happens to the limit; under a steady limit no second gets more |
| FileOperationProgress.TFileOperationProgress.ThrottleFile | source/core/FileOperationProgress.cpp:277-326 | from a cleared transfer on, under a constant limit L, N bytes are granted in total over at least ceil(N/L) distinct seconds, none with more than L |
| Throttling.ManySeconds | source/core/FileOperationProgress.cpp:287-326 | grants within a limit per second need at least their share of distinct seconds |
| CommandLine.EscapeParamDoubles | source/core/Common.cpp:657-661 | replacing quotes equals doubling them |
| CommandLine.ArgumentEscape | dotnet/internal/Tools.cs:23-36 | inserting while an index advances equals doubling quotes |
| CommandLine.TokensOfJoined | source/core/Common.cpp:2374-2452 | what is read from wrapped, joined arguments, for every list of arguments |
| CommandLine.QuotingRoundTrip | source/core/Common.cpp:2374-2452 | the arguments come back exactly if each holds a character that is no quote |
| CommandLine.QuoteAloneIsNotKept | source/core/Common.cpp:2402-2412 | a quote alone does not |
| CommandLineTokens.WordCut | source/core/Common.cpp:2382-2441 | a word behind blanks and tabs is cut up to the next one, which is taken off with it |
| CommandLineTokens.QuotesInWord | source/core/Common.cpp:2393-2418 | quotes in the middle of a word go, and blanks between them belong to the token |
| CommandLineTokens.OpenQuotes | source/core/Common.cpp:2393-2439 | quotes left open run to the end of the line |
| TokenCutting.CutToken | source/core/Common.cpp:2374-2452 | one call on every string: token, raw token, separator and rest, or nothing found |
| TokenCutting.CutTokenInto | source/console/Main.cpp:129-190 | the pointer form writes the same token, ended by a zero, and stops at the same place |
| TokenCutting.SplitLine | source/core/Common.cpp:2374-2452 | calling it until nothing is found gives all tokens |
| ChildCommandLine.RequoteInto | source/console/Main.cpp:306-319 | the inner loop writes a token with quotes doubled |
| ChildCommandLine.RequoteArguments | source/console/Main.cpp:295-324 | the loop writes every token but the one skipped, wrapped and requoted, behind a path that may use the room the buffer has for it, and the child reads that path and then those tokens |
| CommandLineTokens.HandedOnIs | source/console/Main.cpp:297-324 | the tokens handed on are all but the first and the one skipped, in order |
| ChildCommandLine.RequotedTokensSurvive | source/console/Main.cpp:297-324 | read by themselves, the tokens come back exactly if none consists of quotes only |
| ChildCommandLine.ChildReads | source/console/Main.cpp:295-324 | behind any text that ends in a blank outside quotes, the child reads the tokens of that text and then the same tokens exactly if none consists of quotes only |
| UrlEncoding.DoEncodeUrl | source/core/Common.cpp:2307-2344 | the loop that deletes and inserts equals encoding each character |
| UrlEncoding.HexToBytesLoop | source/core/Common.cpp:1145-1169 | pairs of digits as bytes, nothing for an odd length or a wrong character |
| UrlEncoding.DecodeUrlChars | source/core/Common.cpp:2271-2305 | runs of %XX are joined before they are read as UTF-8, a plus becomes a space |
| UrlEncoding.RunDecoded | source/core/Common.cpp:2282-2300 | a whole run of bytes spelled in upper or lower case becomes the characters they are in UTF-8, if they are any |
| UrlEncoding.OtherDecoded | source/core/Common.cpp:2271-2305 | all characters but plus and percent sign stay |
| UrlEncoding.PlusIsSpace | source/core/Common.cpp:2278-2280 | a plus becomes a space, whatever follows |
| UrlEncoding.LonePercent | source/core/Common.cpp:2282-2300 | a percent sign without two digits behind it stays |
| UrlEncoding.KeptChar | source/core/Common.cpp:2313-2319 | letters, digits, underscore, hyphen, dot and, if asked for, slash are kept |
| UrlEncoding.EncodedChar | source/core/Common.cpp:2320-2331 | any other character becomes a percent sign and two upper-case digits for each of its UTF-8 bytes |
| UrlEncoding.Utf8Bytes | source/core/Common.cpp:2322-2327 | the one to three bytes of a character, as numbers (section 3 of RFC 3629) |
| UrlEncoding.Utf8RoundTrip | source/core/Common.cpp:2281-2296 | the bytes of all characters, joined, are read back (section 3 of RFC 3629) |
| UrlEncoding.Utf8ReadsOnly | source/core/Common.cpp:2295 | no other bytes are read as characters: no stray byte, no longer spelling and no surrogate (section 3 of RFC 3629) |
| UrlEncoding.HexRoundTrip | source/core/Common.cpp:1108-1119 | bytes spelled in hexadecimal are read back |
| UrlEncoding.DecodeEncode | source/core/Common.cpp:2271-2344 | decoding undoes encoding for every string of characters that are neither zero nor surrogates, slashes encoded or not (section 2.1 of RFC 3986) |
| UrlEncoding.EncodeThenDecode | source/core/Common.cpp:2271-2344 | the same for the methods |
| FileNameEditing.ReplaceChar | source/core/Common.cpp:485-507 | a character becomes its token or the replacement, and the search goes on behind it |
| FileNameEditing.EncodeInPlace | source/core/Common.cpp:520-540 | the search that goes on in the edited string encodes each character once |
| FileNameEditing.ValidLocalFileName | source/core/Common.cpp:514-561 | the loop, the last character and the reserved names together |
| FileNameEditing.RestoreChars | source/core/CopyParam.cpp:358-397 | the search that goes on in the edited string equals restoring from the left |
| FileNameProperties.AvoidedIsNotReserved | source/core/Common.cpp:757-780 | no name is reserved once the insertion is made |
| FileNameCharacters.ReservedIs | source/core/Common.cpp:757-780 | a name is reserved exactly if what is before its first dot is one of 22 device names, all spelled out, in either case |
| FileNameProperties.ValidNameIsValid | source/core/Common.cpp:514-561 | the encoded name holds no invalid character, ends in no space or dot and is not reserved |
| FileNameCharacters.UnitSpelled | source/core/Common.cpp:524-540 | with tokens, the nine forbidden characters become tokens and others but the percent sign stay |
| FileNameCharacters.PercentSpelled | source/core/Common.cpp:528-535 | a percent sign becomes %25 exactly if it starts what reads as a token of an encoded character |
| FileNameCharacters.TokensAreTaken | source/core/Common.cpp:514-561 | every name comes out as one that Windows takes, said with the nine characters, space, dot and the device names spelled out |
| FileNameCharacters.ReplacedIs | source/core/Common.cpp:509-561 | with a replacement character: it stands for each forbidden character and for a space or dot at the end, where that stood, and only the insertion into reserved names is added |
| FileNameCharacters.ReplacedIsTaken | source/core/Common.cpp:509-561 | Windows takes the result exactly if the replacement is not itself forbidden wherever it stands |
| FileNameProperties.RestoreStep | source/core/CopyParam.cpp:363-394 | one character of the name restored, or exactly how that goes wrong |
| FileNameCharacters.TokenRestored | source/core/CopyParam.cpp:366-377 | a token is restored exactly if it stands for an encoded character, or for a space or dot at the very end |
| FileNameCharacters.ZeroRestored | source/core/CopyParam.cpp:378-384 | %00 goes exactly if it stands before a dot or the end and the name is reserved without it |
| FileNameCharacters.OthersStay | source/core/CopyParam.cpp:363-394 | all other characters stay, percent signs without two digits behind them included |
| FileNameProperties.RestoresExactly | source/core/CopyParam.cpp:358-397 | a name comes back exactly if it does not end like an encoded space or dot and holds no %00 that looks inserted |
| FileNameProperties.ReservedWithInsertionIsNotRestored | source/core/CopyParam.cpp:378-384 | a reserved name with %00 behind it does not come back |
| FileNameProperties.EncodedSpaceIsNotRestored | source/core/CopyParam.cpp:370-377 | a%20 does not come back |
| FileNameProperties.ConWithInsertionIsNotRestored | source/core/CopyParam.cpp:378-384 | CON%00 does not come back |
| FileNameEditing.StoreAndRestore | source/core/CopyParam.cpp:358-397 | validity and the round trip for the methods |
| FileMaskProperties.DoubledPiece | source/core/Common.cpp:207-262 | up to a single delimiter, exactly what was doubled is read |
| FileMaskProperties.DoubledDirectoryMask | source/core/FileMasks.cpp:180-194 | doubling delimiters and adding the closing slash commute |
| FileMaskProperties.ParseJoined | source/core/FileMasks.cpp:737-774 | parsing joined masks adds them one after the other, whatever adding does |
| FileMaskProperties.ParseComposed | source/core/FileMasks.cpp:219-238 | a composed string is parsed as all included masks, then all excluded ones |
| FileMaskProperties.DraftOfName | source/core/FileMasks.cpp:535-667 | a mask without size and time: accepted by its name alone, a directory mask if it ends in a slash, shown without slashes at the end |
| FileMaskProperties.BoundsKeepName | source/core/FileMasks.cpp:565-616 | size and time parts, however many, leave names, patterns and kind alone; a directory mask accepts none |
| FileMaskProperties.AnyDraft | source/core/FileMasks.cpp:535-667 | for every mask accepted: a directory mask has no size and no time, and all of a mask is shown unless its name ends in a slash |
| FileMaskProperties.DraftOfFile | source/core/FileMasks.cpp:535-667 | a mask whose name ends in no slash, sizes and times included, is one of files, shown as it is, in lists of files and in lists of either kind alike |
| FileMaskPatterns.PatternsOfName | source/core/FileMasks.cpp:647-662 | a name is parted behind its last slash: the path before it, in Unix form, is the pattern for the directory, what is behind it that for the file name, and without a slash any directory will do |
| FileMaskPatterns.StoredPatterns | source/core/FileMasks.cpp:617-663 | an accepted mask stores these patterns, slashes at its end being for the kind only |
| FileMaskPatterns.StoredText | source/core/FileMasks.cpp:621-645 | it shows the name without slashes at its end, and keeps as its own string the mask as given where directories are told by slashes |
| FileMaskPatterns.StoredForDirectories | source/core/FileMasks.cpp:641-645 | a list of directories only keeps a slash before the last character of a mask that ends in none |
| FileMaskPatterns.StoredBound | source/core/FileMasks.cpp:565-616 | behind < stands the highest size or time and behind > the lowest, an equals sign includes it, a text that reads as a time is one, and one that reads as neither is an error |
| FileMaskPatterns.TwiceBounded | source/core/FileMasks.cpp:593-611 | a second size or time in the same direction is an error |
| FileMaskPatterns.TrimmedOff | source/core/FileMasks.cpp:177 | blanks and control characters go from both ends |
| FileMaskPatterns.DoubledSpelled | source/core/FileMasks.cpp:180-187 | semicolon, comma and bar are written twice and nothing else is |
| FileMaskPatterns.DirectoryMaskSpelled | source/core/FileMasks.cpp:190-194 | a directory mask ends in its last slash, in a forward one if it has none |
| FileMaskPatterns.SeparatorsSpelled | source/core/FileMasks.cpp:204-237 | masks are parted by a semicolon and a blank, excluded ones stand behind a bar |
| FileMaskCuts.ParsedFilesAreShown | source/core/FileMasks.cpp:535-784 | whatever string is parsed, file masks shown are trimmed and their names end in no slash |
| FileMaskCuts.CutDoesNotComeBack | source/core/FileMasks.cpp:195-210 | from a list with a file mask that ends in a slash another list is read, or fewer directories are, also where what is left of it is read together with the next mask |
| FileMaskProperties.ComposedString | source/core/FileMasks.cpp:170-238 | if the file masks can come back, sizes and times included, a string is composed exactly if all masks are accepted, and which one |
| FileMaskProperties.ComposeThenParse | source/core/FileMasks.cpp:170-238 | it is read back with file masks as they were, and directory masks trimmed and without slashes at the end |
| FileMaskRoundTrip.RoundTripsExactly | source/core/FileMasks.cpp:170-238 | any four lists come back in order exactly if each mask is nonempty, trimmed, accepted and ends in no slash, no file mask has a name that does, and no directory mask has a size or time; whatever other delimiters they hold |
| FileMaskRoundTrip.SlashIsNotKept | source/core/FileMasks.cpp:195-202 | no mask with a slash at the end comes back in either list, even if the slash belongs to a size or time |
| FileMaskRoundTrip.DelimiterIsNotKept | source/core/FileMasks.cpp:623-631 | no directory mask with a size or time delimiter comes back, even a doubled one, for which the closing slash is taken off at the wrong place |
| FileMaskLists.CopyToChars | source/core/Common.cpp:207-262 | the piece, its end and the delimiter, two delimiters in a row standing for the first |
| FileMaskLists.RemoveSlashes | source/core/FileMasks.cpp:623-631 | slashes are removed from the part and at the same places from what the user sees |
| FileMaskLists.CreateName | source/core/FileMasks.cpp:617-663 | the name part in all three ways to tell directories |
| FileMaskLists.CreateBoundary | source/core/FileMasks.cpp:565-616 | a size or time part: one of each kind and direction, none for directories |
| FileMaskLists.CreateDraft | source/core/FileMasks.cpp:535-664 | all parts in turn |
| FileMaskLists.TFileMasks.CreateMask | source/core/FileMasks.cpp:535-667 | the mask goes to the list of its kind, and an error changes no list |
| FileMaskLists.TFileMasks.SetStr | source/core/FileMasks.cpp:729-784 | afterwards lists and string belong together; on an error the string is what it was, and setting it back cannot loop |
| FileMaskLists.TFileMasks.SetMasks | source/core/FileMasks.cpp:716-722 | a string that is not accepted changes neither string nor lists |
| FileMaskLists.TFileMasks.GetMasksStr | source/core/FileMasks.cpp:669-683 | cached or not, the names of the current list |
| FileMaskLists.DoubleDelimiters | source/core/FileMasks.cpp:180-187 | inserting while an index advances doubles every delimiter once |
| FileMaskLists.ComposeMaskStr | source/core/FileMasks.cpp:170-217 | one list as a string, checked by a scratch object |
| FileMaskLists.ComposeMasks | source/core/FileMasks.cpp:219-238 | the four lists as one string |
| FileMaskLists.ComposeAndReadBack | source/core/FileMasks.cpp:219-238 | the round trip for the methods: success and equality exactly if every mask is fit |
| CustomCommandPasses.GetToken | source/core/FileMasks.cpp:796-843 | the length of the token at a position, and its kind; text goes on to the end if a zero character comes before the next exclamation mark |
| CustomCommandPasses.CompleteCommand | source/core/FileMasks.cpp:845-907 | the loop over the command gives the pass of the specification, quotes judged right around the pattern |
| CustomCommandPasses.ShellDelimitStr | source/core/Common.cpp:270-291 | backslashes are inserted before each character that needs one in these quotes |
| CustomCommandPasses.PatternLen | source/core/FileMasks.cpp:982-1017 | a prompt ends at the next exclamation mark, a command at the next back quote, or there is an error |
| CustomCommandPasses.PatternReplacement | source/core/FileMasks.cpp:1019-1060 | a prompt with or without default and with or without delimiting, a command completed and run, or no replacement |
| CustomCommands.FileCompletes | source/core/FileMasks.cpp:1125-1147 | the pass for files never fails |
| CustomCommandHygiene.PiecesCover | source/core/FileMasks.cpp:796-843 | tokens are not empty and cover the command |
| CustomCommandHygiene.DoubleThenDelimit | source/core/FileMasks.cpp:887-894 | doubling exclamation marks and delimiting commute |
| CustomCommandHygiene.FirstPassRenders | source/core/FileMasks.cpp:845-907 | the first pass writes values with doubled exclamation marks and leaves all else |
| CustomCommandHygiene.PiecesFit | source/core/FileMasks.cpp:796-843 | after the first pass, what follows each file pattern does not change how it is read |
| CustomCommandHygiene.SecondPassMeans | source/core/FileMasks.cpp:845-907 | the second pass on what the first one wrote gives the meaning of the template |
| CustomCommandHygiene.ValueIsKept | source/core/FileMasks.cpp:832-841 | a value with its marks doubled comes out as it was exactly if no mark stands behind a zero character |
| CustomCommandHygiene.MarkBehindZeroIsDoubled | source/core/FileMasks.cpp:832-841 | a zero character and a mark come out with two marks |
| CustomCommandHygiene.TwoPassesMean | source/core/FileMasks.cpp:845-907 | if the first pass succeeds so does the second, and together: text as it is, a doubled mark as one, each value as it is even if it holds marks, each file pattern once; only behind a zero character in a value nothing is read any more |
| CustomCommandPatterns.UserPatterns | source/core/FileMasks.cpp:1162-1169 | !U alone comes out as the user name and !P as the password, delimited |
| CustomCommandPatterns.SessionPatterns | source/core/FileMasks.cpp:1154-1187 | !S as the session URL, !@ as the host, !# as the port, !N as the session name |
| CustomCommandPatterns.FileNamePattern | source/core/FileMasks.cpp:1188-1192 | a mark alone as the file name, delimited |
| CustomCommandPatterns.PathPattern | source/core/FileMasks.cpp:1174-1177 | !/ as the path with one slash at its end |
| CustomCommandPatterns.ListPattern | source/core/FileMasks.cpp:1178-1183 | !& as the file list, not delimited again |
| CustomCommandPatterns.FileNameBefore | source/core/FileMasks.cpp:1125-1147 | a mark before a character of no pattern is the file name, and the character stays |
| CustomCommandPatterns.BetweenQuotes | source/core/FileMasks.cpp:887-894 | between two quotes of a kind a value is delimited for that quote, between others as without quotes |
| CustomCommandPatterns.DelimitedChar | source/core/Common.cpp:270-291 | a backslash goes before dollar and backslash, before back quote and double quote only in double quotes, and before nothing else |
| CustomCommandPatterns.OnlyItsFields | source/core/FileMasks.cpp:1149-1195 | a field whose pattern does not stand in a template has no influence on what comes out, so no password without !P |
| CustomCommandPatterns.PromptWithDefault | source/core/FileMasks.cpp:1023-1045 | a question, a question mark and a default |
| CustomCommandPatterns.PromptUndelimited | source/core/FileMasks.cpp:1030-1034 | with a backslash before that mark, which goes, the answer is not delimited |
| CustomCommandPatterns.CommandIs | source/core/FileMasks.cpp:1046-1053 | what is between back quotes is completed for the file and run, and its output not delimited |
| CustomCommandPatterns.EndOfPattern | source/core/FileMasks.cpp:982-1017 | a prompt ends at the next exclamation mark, a command at the next back quote; without one there is an error |
| CustomCommandPatterns.PromptIs | source/core/FileMasks.cpp:1037-1042 | a question without a default |
| CustomCommandPasses.ExpandTemplate | source/core/FileMasks.cpp:845-907 | the same for the methods |
| LogNodes.Nested | dotnet/internal/ElementLogReader.cs:49-57 | in a well-formed log an inner element closes before the outer one |
| LogNodes.SkipStaysInside | dotnet/internal/SessionLogReader.cs:49-72 | passing over failures never leaves the element being read |
| LogNodes.EndTagIsTold | dotnet/internal/ElementLogReader.cs:51-57 | name and depth tell an element's own end tag from all others inside it |
| LogMessages.MessagesAreReported | dotnet/SessionRemoteException.cs:45-90 | whatever other nodes and text stand before, between, behind and inside messages: the first message with text is the error, the later ones are kept in order |
| LogMessages.OnlyRelevantCounts | dotnet/SessionRemoteException.cs:54-80 | nodes that are neither tags of messages nor text make no difference, wherever they stand |
| LogTrees.FlattenIsWellFormed | dotnet/internal/ElementLogReader.cs:42-60 | every tree written out is a well-formed log |
| LogTrees.VisibleIsPruned | dotnet/internal/SessionLogReader.cs:42-76 | what is seen of trees in a log is the trees without failures at any depth, written out |
| LogTrees.ContentIsPruned | dotnet/internal/SessionLogReader.cs:42-76 | the same for the content of one element |
| LogTrees.FailuresAreRaised | dotnet/internal/SessionLogReader.cs:55-65 | reading past trees raises all failures in them in order, those inside a failure before it, each with the messages of what is left of its content |
| LogTrees.ReadsWhatIsVisible | dotnet/internal/SessionLogReader.cs:42-76 | each read delivers the first node that can be seen and leaves the others, or tells the end exactly if there is none |
| LogTrees.ThrowsWhatStarts | dotnet/internal/SessionLogReader.cs:55-70 | asked to throw, a read throws exactly at a failure, with its messages, and stands on its end tag |
| LogReaders.SessionLogReader.OpenLog | dotnet/internal/SessionLogReader.cs:194-233 | after reopening the reader stands where reading was; skipping never runs out of nodes |
| LogReaders.SessionLogReader.DoRead | dotnet/internal/SessionLogReader.cs:78-163 | however often the growing log fails to parse and is reopened, the call ends and delivers exactly the next node, or the end after the last one |
| LogReaders.SessionLogReader.DeliverRest | dotnet/internal/SessionLogReader.cs:78-163 | the nodes delivered are those of the final log in order, none left out and none twice |
| LogReaders.SessionLogReader.Read | dotnet/internal/SessionLogReader.cs:42-76 | failures are consumed whole and raised, inner ones first; they are passed over, or thrown if asked for |
| LogReaders.ElementLogReader.constructor | dotnet/internal/ElementLogReader.cs:8-22 | a reader is opened on the current element, inside its parent's |
| LogReaders.ElementLogReader.Read | dotnet/internal/ElementLogReader.cs:42-60 | reading through the parents stops at this reader's own end tag at the latest and marks no parent as read |
| LogReaders.ElementLogReader.ReadToEnd | dotnet/internal/ElementLogReader.cs:62-73 | the cursor is left on the reader's end tag unless a failure is thrown |
| LogReaders.ElementLogReader.Dispose | dotnet/internal/ElementLogReader.cs:24-40 | the cursor is left on the reader's own matching end tag |
| LogReaders.ElementLogReader.ReadAll | dotnet/internal/ElementLogReader.cs:42-60 | a reader without child readers sees its content with every failure subtree removed |
| LogReaders.ElementLogReader.TryWaitForNonEmptyElement | dotnet/internal/CustomLogReader.cs:83-94 | the first such element that can be seen is found, or there is none; for a reader already read to its end it fails |
| LogReaders.ElementLogReader.VisitChild | dotnet/internal/CustomLogReader.cs:118-128 | a child opened and disposed leaves its parent usable, at the child's end tag |
| LogReaders.ReadMessages | dotnet/SessionRemoteException.cs:45-90 | the element is read to its end and its messages, without those of inner failures, make the exception |

## Left out

- HmacSha1.HmacCtx.Key: key text of 0xffffffff bytes or more in all, where the 32-bit length wraps or reads as the flag for data.
- HmacSha1.HmacOfParts: the same.
- KeyDerivation.DeriveKey: a password of 0xffffffff bytes or more, for the same reason, and an iteration count of zero.
- SHA-1, AES and the random generator are parameters: any function, any bytes.
- Conversion of passwords between UTF-16 and UTF-8; a password is its bytes.
- FileEncryption.Verify: what the code reads behind a verifier shorter than the salt is a parameter.
- UrlEncoding.DoEncodeUrl: strings with zero characters or surrogates, whose conversion one by one is up to the library.
- Reading of UTF-8 that encoding does not produce (malformed or beyond 16 bits): an arbitrary function.
- FileNameEditing.ReplaceChar: with tokens, characters above U+00FF, for which the code raises an error; with a replacement character there is no bound.
- FileNameEditing.ValidLocalFileName: other sets of invalid characters than the default one, and the conversion of a name to a short path.
- EolProperties.CutsShow: empty buffers behind the first, which no caller converts.
- FileBuffer: reading from and writing to streams and files, which fill and empty the buffer.
- Wrap-around of 64-bit sizes and of the tick count in FileOperationProgress.
- FileOperationProgress: setting the total or the local size in the middle of a run, and transfers not added to the totals other than those of AddResumed, are no events of a run; UncountedTransferConservesExactly says what such a transfer does.
- FileOperationProgress: the calls of DoProgress except that they may change the limit, and the block size arithmetic of TransferBlockSize and LocalBlockSize.
- FileOperationProgress.TFileOperationProgress.AdjustToCPSLimit: the bound per second is stated for a limit that progress calls do not change and a clock whose seconds do not go back; that every call ends needs a clock that advances.
- ChildCommandLine.RequoteArguments: the start of the child's command line, program path and instance name, is any text that fits the room the size of the buffer leaves for it.
- FileMasks: matching a name against masks, and how a time or size is read: any function, the same for composing and for parsing, though a time may be relative to the present.
- FileMaskLists.TFileMasks.SetStr: single-mask mode, assignment between objects with different ways to tell directories, and the position and text of an error.
- CustomCommands: Validate and FindPattern, and local commands of the user interface that delimit in another way.
- LogReaders.ReadMessages: the link to the session object; the inner exception is the list of its messages.
- LogReaders.ElementLogReader.constructor: the exception for a node that is no nonempty element is a precondition, and so is that the element is in the namespace of the session; all callers in the code establish both.
- SessionLogReader: timeouts, logging, and the debug build, in which a parse error is not retried.
- File permissions as text and number, time zones, dialogs, registry and INI storage, certificates, protocols and process start.
