# A verified model of kerber-rust

A Dafny model of the parts of this Kerberos implementation whose correctness rests on loops,
modular arithmetic or whole runs, with proofs about them.

| modules | what they model |
|---|---|
| `BlockMode`, `CtsInPlace` | AES in CBC mode with ciphertext stealing (section 5 of RFC 3962), by slices and in a buffer |
| `Rotation`, `OnesComplement`, `NFold`, `NFoldInPlace` | n-fold (section 5.1 of RFC 3961), by slices and by the backward pass over one buffer |
| `SimplifiedProfile` | key derivation, encryption and decryption of the simplified profile (section 5.3 of RFC 3961) |
| `Chaining` | encryption that carries its vector from message to message (section 6 of RFC 3962, section 5 of RFC 8009) |
| `Der`, `DerTree` | zeroing the PAC inside a DER-encoded ticket (section 2.8.3 of MS-PAC) |
| `Getopt`, `GetoptLaws` | the option parser of the command-line tools |
| `Calendar`, `DateConvert`, `DateShift`, `DateWords`, `DateWordsLaws`, `DateParse`, `DateParseLaws`, `GetDate`, `DateText` | date specifications, from text to a time |
| `Keytab`, `TicketKey` | finding a key in a keytab, and the key that opens a ticket |
| `SeqCheck`, `DumpSize`, `Transfer`, `TransferLaws` | propagating a database dump to a replica |
| `SignalCatch`, `Lines`, `Prompt` | catching signals, reading lines and prompting |
| `CredCache` | looking credentials up and asking for those not held |
| `Kpasswd` | the frames of the password-change protocol (section 2 of RFC 3244) |
| `Globs` | whether two patterns have a common match |
| `Bytes`, `Options` | bytes, their bits and big-endian values; optional values |

Code that changes things step by step is a method or a class, proved against a function; the laws
are lemmas about those functions. Bytes are the integers 0 to 255 and machine words are wrapped
explicitly. What the program takes from outside is a parameter: the block cipher is any function with
an inverse, the keyed hash and the decryption of a ticket are any functions, the network delivers
genuine messages in any order and any number, a local zone is any fixed offset, and reads, writes,
signals and system calls may fail as they can.

Some promises turn out not to hold for every input. For each there is a lemma that says exactly when
it holds and, but for the last, an input or a run on which it fails:

- dates are converted right up to 2099; in 2100 they come out 32 days low and from 2101 a day high
  (`DateConvert.ExactUntil2099`, `DateConvert.NewYear2100Collides`);
- twelve o'clock, am or pm, is taken twelve hours late (`DateConvert.TwelveIsLate`, `GetDate.ClockShowsSaid`);
- a shift by months lands right if and only if the year landed in is one of 1970 to 2099
  (`DateShift.MonthShiftExact`, `DateShift.JanuaryIsMissed`), and under a zone other than the local one if
  and only if the time converted is whole hours away without passing 23 o'clock
  (`DateShift.ForeignMonthShift`, `DateShift.EveningIsMissed`);
- the newest key in a keytab is kept in every file order if and only if its 8-bit version is told from
  each older one; fifteen generations are enough for that and sixteen are not
  (`Keytab.NewestKeptExactlyWhenTold`, `Keytab.FifteenIsEnough`, `Keytab.SixteenIsTooFar`);
- blocks of a dump are always taken in turn where the encryption type chains them; where it does not,
  exactly when their sequence numbers are unambiguous, which the closed form
  `SeqCheck.Unambiguous` says for every first number and length, the wrap at 2^32 included
  (`TransferLaws.InTurnExactlyWhenOrdered`, `TransferLaws.OutOfTurnIsTaken`);
- an acknowledged dump is the one sent exactly when the acknowledgement was the replica's first answer:
  a short write is reported and still counted (`TransferLaws.AcknowledgedIsStored`,
  `TransferLaws.DroppedErrorMisleads`);
- live catches keep their signals over a run exactly when no release in it takes a signal another one
  wants (`SignalCatch.CaughtExactlyWhenHarmless`, `SignalCatch.OutOfOrderLoses`);
- a prompt takes one line and nothing else exactly when that line is all there and no zero octet hides its
  newline: an end of the input in a line swallows the next one (`Prompt.OnePrompt`,
  `Prompt.EndTakesNextLine`);
- a stored credential answers the same request again exactly while it is of a listed type, findable and
  not ended (`CredCache.StoredAnswersExactly`).

## Model

| member | source | states |
|---|---|---|
| `BlockMode.SlicingIsStealing` | harness/samba/kcrypto.py:355-374 | swapping and cutting the CBC text of the padded plaintext is ciphertext stealing block by block, for every length above one block |
| `BlockMode.BasicDecrypt` | harness/samba/kcrypto.py:376-411 | the loop over all but the last two blocks and the stolen bytes compute the recursive decryption |
| `BlockMode.DecryptUndoesEncrypt` | harness/samba/kcrypto.py:355-411 | decryption undoes encryption for every block permutation and every text of at least one block |
| `BlockMode.EncryptUndoesDecrypt` | harness/samba/kcrypto.py:355-411 | encryption undoes decryption too, so each is a bijection on the texts of one length |
| `BlockMode.CbcBlock` | harness/samba/kcrypto.py:355-374 | block `i` of the CBC text is its text masked with block `i - 1`, or the vector, and enciphered |
| `BlockMode.XorBytesBit` | harness/samba/kcrypto.py:122-129 | masking works bit by bit |
| `CtsInPlace.EncryptWith` | crates/krb5-crypto/src/cts.rs:78-131 | encryption in one buffer is ciphertext stealing under the vector; at most one block is padded and cut without it; nothing is refused but the empty text |
| `CtsInPlace.DecryptWith` | crates/krb5-crypto/src/cts.rs:133-184 | decryption in one buffer, which uses the padded last block in place of the vector, is the decryption of stolen ciphertext |
| `CtsInPlace.EncryptAgrees` | crates/krb5-crypto/src/cts.rs:78-131 | from the zero vector the buffer form and the slicing form compute the same text |
| `CtsInPlace.RoundTrip` | crates/krb5-crypto/src/cts.rs:78-184 | decrypting in place what was encrypted in place returns every text of at least one block |
| `Rotation.RotateRightMovesBits` | harness/samba/kcrypto.py:148-154 | bit `j` of the rotated string is bit `j - n` of the original round the ring, for every rotation and string |
| `OnesComplement.CarryStepShrinks` | harness/samba/kcrypto.py:160-162 | a pass takes 255 off the element sum for every carry, so the loop ends |
| `OnesComplement.AddOnesComplement` | harness/samba/kcrypto.py:156-163 | the carry loop ends with bytes only, the sum settled from both strings |
| `OnesComplement.AddValue` | harness/samba/kcrypto.py:156-163 | the sum is congruent to the sum of the values modulo 256^n - 1, and zero only when both are |
| `OnesComplement.SumIsUnique` | harness/samba/kcrypto.py:156-163 | those two facts leave one string only |
| `NFold.CopiesFillSlices` | harness/samba/kcrypto.py:170-172 | the copies make up a common multiple of both lengths and fill whole slices |
| `NFold.LcmIsLeast` | harness/samba/kcrypto.py:165-172 | that multiple divides every other common multiple, so it is the least |
| `NFold.CopiesAreRotated` | harness/samba/kcrypto.py:165-174 | bit `j` of copy `k` is bit `j - 13 k` of the string, round the ring |
| `NFold.FoldIsOnesComplementSum` | harness/samba/kcrypto.py:165-174 | the fold is congruent, modulo 256^n - 1, to the value of the concatenated rotated copies, and zero only for a zero string |
| `NFold.FoldToOwnLength` | harness/samba/kcrypto.py:165-174 | folding to its own length leaves a string as it is |
| `NFoldInPlace.WindowReadsRotation` | crates/krb5-crypto/src/nfold.rs:23-36 | the 16-bit window at the computed bit reads the byte that rotating by 13 bits a copy would have put there |
| `NFoldInPlace.SumSlices` | crates/krb5-crypto/src/nfold.rs:19-40 | the backward pass with a running carry adds the slices end around, up to a last carry |
| `NFoldInPlace.AddLastCarry` | crates/krb5-crypto/src/nfold.rs:42-48 | the last carry is added once more from the end |
| `NFoldInPlace.FoldInPlace` | crates/krb5-crypto/src/nfold.rs:3-50 | the backward pass computes the same string as rotating, slicing and summing; an empty input or length is refused |
| `SimplifiedProfile.Derive` | harness/samba/kcrypto.py:224-237 | the loop encrypts its own output until there is seed enough |
| `SimplifiedProfile.KeyStreamIs` | harness/samba/kcrypto.py:228-237 | block `i` of the key stream is the folded constant enciphered `i + 1` times |
| `SimplifiedProfile.DerivedKeyIs` | harness/samba/kcrypto.py:224-237 | byte `k` of a derived key is byte `k % 16` of the folded constant enciphered `k / 16 + 1` times |
| `SimplifiedProfile.ConstantMeans` | harness/samba/kcrypto.py:240-242 | the constant is the usage, big-endian in two's complement, then the kind of key |
| `SimplifiedProfile.ConstantInjective` | harness/samba/kcrypto.py:240-242 | different usages or kinds of key derive from different constants |
| `SimplifiedProfile.MacEqual` | harness/samba/kcrypto.py:122-129 | gathering the differences of all bytes says exactly whether the codes are equal |
| `SimplifiedProfile.Encrypt` | harness/samba/kcrypto.py:239-247 | encryption is the confounder and padded text enciphered, then the truncated code of both |
| `SimplifiedProfile.MessageIs` | harness/samba/kcrypto.py:239-247 | a message is confounder and text with stealing from the zero vector under the key for 0xAA, then twelve bytes of their code under the key for 0x55 |
| `SimplifiedProfile.Decrypt` | harness/samba/kcrypto.py:249-264 | decryption with each of its refusals in the source's order |
| `SimplifiedProfile.DecryptUndoesEncrypt` | harness/samba/kcrypto.py:239-264 | decryption returns what was encrypted, for every key, usage, text and full-block confounder |
| `SimplifiedProfile.DecryptAcceptsOnlyEncryptions` | harness/samba/kcrypto.py:249-264 | decryption yields a text for the encryptions of that text and for no other string |
| `Chaining.CipherState.Encrypt` | crates/krb5-crypto/src/ops.rs:252-313 | a message is sealed under the vector held, text or vector and ciphertext hashed, and the vector moves on |
| `Chaining.CipherState.Decrypt` | crates/krb5-crypto/src/ops.rs:377-431 | a message is opened under the vector held, which moves on unless the hash covers it and refuses, or the message is too short |
| `Chaining.NextVectorIsLastBlock` | crates/krb5-crypto/src/ops.rs:307-313 | the vector after a message is the last block of its CBC text, which stealing puts last but one |
| `Chaining.UnderAnotherVector` | crates/krb5-crypto/src/cts.rs:78-184 | decrypted under another vector a text changes in its first block only, by the difference of the vectors |
| `Chaining.CoversTellVectors` | crates/krb5-crypto/src/ops.rs:277-298 | what the hash covers under two vectors is the same if and only if they are, or the text is empty and the vector not covered |
| `Chaining.OpensWhereHashesAgree` | crates/krb5-crypto/src/ops.rs:377-431 | a sealed message opens under a vector, to its own text, if and only if the hashes of what the two vectors cover agree |
| `Chaining.OpensInPlace` | crates/krb5-crypto/src/ops.rs:252-431 | in a chain every message opens in its place, and in another if and only if hashes agree, of different texts unless the places have one vector or the message is empty |
| `Chaining.OpeningAdvances` | crates/krb5-crypto/src/ops.rs:252-431 | opening a chain in order leads through the vectors it was sealed under and gives every text |
| `Chaining.PlacesStandForStates` | crates/krb5-protocol/src/auth_con.rs:352-436 | where no hashes agree by chance, a block opens in the transfer exactly when its place is the one reached |
| `Der.ReadDerLen` | harness/samba/pac_l2.py:49-61 | the accumulating loop reads the short and the long form, and refuses lengths over four octets or past the end |
| `Der.ReadLenOfEncoded` | harness/samba/pac_l2.py:49-94 | an encoded length reads back wherever it stands, for every length below 2^32 |
| `Der.EncodedLenBytes` | harness/samba/pac_l2.py:83-94 | the bytes of an encoded length, in each of its five ranges |
| `Der.LenRefused` | harness/samba/pac_l2.py:49-61 | a length is refused exactly where it is missing, indefinite, over four octets or cut off |
| `Der.EncodedLenIsShortest` | harness/samba/pac_l2.py:83-94 | no form of a length that reads is shorter than the encoded one |
| `Der.ReadTlvOfEncoded` | harness/samba/pac_l2.py:64-98 | an encoded element reads back as its tag, kind, contents and length |
| `Der.TagFields` | harness/samba/pac_l2.py:64-71 | an element is constructed exactly if bit 0x20 of its tag is set, and refused exactly if its tag number is 31 |
| `Der.RewriteOne` | harness/samba/pac_l2.py:101-132 | the recursive rewriter ends, on every input, with the rewriting of one element |
| `Der.RewriteChildren` | harness/samba/pac_l2.py:109-125 | the loop over the contents collects each rewritten child in order |
| `Der.UnreplacedIsUnchanged` | harness/samba/pac_l2.py:101-132 | what is not replaced comes back as the input slice, whatever its form |
| `Der.NothingToReplace` | harness/samba/pac_l2.py:101-132 | where the bytes of the PAC do not stand nothing is replaced |
| `DerTree.ElementRewrites` | harness/samba/pac_l2.py:101-132 | the element of a canonical tree, wherever it stands, rewrites to the tree with its holes zeroed, through sequences and through octet strings that wrap one; an octet string that merely begins like a sequence is left alone |
| `DerTree.ZeroPacFillsHoles` | harness/samba/pac_l2.py:135-144 | zeroing a tree filled with the PAC gives exactly the encoding of the tree filled with one zero byte; a tree without a hole gives nothing |
| `DerTree.TicketIsZeroed` | harness/samba/pac_l2.py:135-144 | a ticket, 0x63 around a SEQUENCE with a hole, is zeroed |
| `DerTree.SmallTicketsAreZeroed` | harness/samba/pac_l2.py:101-144 | two tickets byte by byte, one with the PAC wrapped |
| `Getopt.OptWantsArg` | crates/krb5-cli/src/getopt.rs:164-175 | the walk over the option string finds the letter and whether a colon follows, as the table laws say |
| `GetoptLaws.UnlistedLetter` | crates/krb5-cli/src/getopt.rs:164-175 | a letter is unknown exactly if it is a colon or not in the string |
| `GetoptLaws.TableMeans` | crates/krb5-cli/src/getopt.rs:164-175 | in the string of a table of letters, each takes an argument exactly if the table says so, and no other letter is known |
| `Getopt.LongOption` | crates/krb5-cli/src/getopt.rs:45-92 | one long option, its inline or following argument, and its errors |
| `Getopt.ShortOptions` | crates/krb5-cli/src/getopt.rs:93-127 | the letters of one bundle, the last of which may take the next argument |
| `Getopt.GetoptEach` | crates/krb5-cli/src/getopt.rs:27-136 | the nested loops compute the outcome of the arguments read group by group |
| `GetoptLaws.ParseUndoesRender` | crates/krb5-cli/src/getopt.rs:16-136 | printed options of every form, then `--` and any operands, parse back to those options and operands without an error, in both modes |
| `GetoptLaws.TableParses` | crates/krb5-cli/src/getopt.rs:16-136 | options printed from a table of letters and listed names parse back, one for each, to the letter, name and argument written, with a leading plus as without |
| `GetoptLaws.LetterErrors` | crates/krb5-cli/src/getopt.rs:93-127 | an unknown letter and a missing argument are the errors they should be |
| `GetoptLaws.WordErrors` | crates/krb5-cli/src/getopt.rs:45-92 | so are an unknown, an ambiguous, an unfinished and an overfull long option |
| `GetoptLaws.LongNameMeans` | crates/krb5-cli/src/getopt.rs:138-162 | a long name is unknown exactly when neither listed nor beginning a listed one; listed, it is the first of that name; else the first it begins if all it begins mean one option, and ambiguous, with their names, if not |
| `GetoptLaws.BundleSplits` | crates/krb5-cli/src/getopt.rs:93-127 | splitting the first letter off a bundle changes nothing exactly when it takes no argument and the next is not a dash, invalid letters included |
| `GetoptLaws.OperandCommutes` | crates/krb5-cli/src/getopt.rs:128-135 | when permuting, an operand may stand before or after a complete option group |
| `GetoptLaws.OperandsKeepOrder` | crates/krb5-cli/src/getopt.rs:128-135 | operands keep their order |
| `GetoptLaws.StoppedOperandsAreTail` | crates/krb5-cli/src/getopt.rs:128-131 | with a leading plus the operands are a suffix of the arguments |
| `GetoptLaws.PlusStops` | crates/krb5-cli/src/getopt.rs:16-136 | with a leading plus the options before the first operand are parsed, and it and all after it are operands |
| `GetoptLaws.OperandMeans` | crates/krb5-cli/src/getopt.rs:93-93 | an operand is empty, a single dash, or does not begin with one |
| `Calendar.DayNumbersInOrder` | crates/krb5-admin/src/getdate.rs:649-674 | the reference day count keeps the order of dates |
| `Calendar.DateOfDayNumber` | crates/krb5-admin/src/getdate.rs:588-617 | the calendar library's date of a day is the inverse of the day count |
| `Calendar.ValidDateMeans` | crates/krb5-admin/src/getdate.rs:650-670 | a date exists exactly if its day is within its month, the months by arithmetic |
| `Calendar.DayNumberIs` | crates/krb5-admin/src/getdate.rs:649-674 | the day number of a date is the Gregorian count, by arithmetic |
| `DateConvert.CountDays` | crates/krb5-admin/src/getdate.rs:671-674 | the loop, which tests the target year for the century rule, counts the Gregorian days off by 0, -32 or 1 |
| `DateConvert.Convert` | crates/krb5-admin/src/getdate.rs:642-688 | the conversion is the Gregorian instant of the moment off by the drift of its year, modulo 2^64, and refuses exactly the dates and times that do not exist |
| `DateConvert.ConvertedMeans` | crates/krb5-admin/src/getdate.rs:642-688 | what is converted, and to what, by arithmetic alone, without the table of months |
| `DateConvert.EpochIsThursday` | crates/krb5-admin/src/getdate.rs:588-617 | the epoch was a Thursday, and a day later is the next day of the week |
| `DateConvert.ExactUntil2099` | crates/krb5-admin/src/getdate.rs:671-688 | the conversion is the Gregorian one if and only if the year is at most 2099 |
| `DateConvert.NewYear2100Collides` | crates/krb5-admin/src/getdate.rs:671-674 | the first of January 2100 converts like the thirtieth of November 2099 |
| `DateConvert.TwelveIsLate` | crates/krb5-admin/src/getdate.rs:619-631 | a time of day is what the clock shows unless it is twelve, am or pm, and then twelve hours late |
| `DateConvert.ConversionInOrder` | crates/krb5-admin/src/getdate.rs:642-688 | from 1970 to 2099 later moments convert to later times, if and only if the zone moves both round the 64-bit word as often |
| `DateShift.ConversionUndoesLocalTime` | crates/krb5-admin/src/getdate.rs:588-688 | from 1970 to 2099 converting a local time gives back the time it was taken from |
| `DateShift.LocalTimeUndoesConversion` | crates/krb5-admin/src/getdate.rs:588-688 | from 1970 to 2099 the local time of a converted moment shows that moment |
| `DateShift.MonthShiftLands` | crates/krb5-admin/src/getdate.rs:690-724 | a shift by months lands on the same day and time that many months away, and fails exactly when that day does not exist |
| `DateShift.MonthShiftReturns` | crates/krb5-admin/src/getdate.rs:707-724 | shifting back by as many months returns to the start |
| `DateShift.MonthShiftExact` | crates/krb5-admin/src/getdate.rs:707-724 | a shift by months to a day that exists lands there if and only if its year is one of 1970 to 2099: other years are refused, miscounted or taken for one of these |
| `DateShift.ForeignMonthShift` | crates/krb5-admin/src/getdate.rs:690-724 | in whatever zone its months are counted, a shift to a day that exists keeps the local day and time if and only if the converted time is whole hours from the right one and those do not lead past 23 o'clock |
| `DateShift.ZoneLandsRight` | crates/krb5-admin/src/getdate.rs:690-724 | in 1970 to 2099 that is: the time read in the zone is representable, and the zones are whole hours apart that do not lead past 23 o'clock |
| `DateShift.JanuaryIsMissed` | crates/krb5-admin/src/getdate.rs:707-724 | a month after 15 December 2099 is not found, in every local zone |
| `DateShift.EveningIsMissed` | crates/krb5-admin/src/getdate.rs:690-724 | a month after 15 January 2020, eight in the evening, counted five hours further west, is not found either |
| `DateShift.WeekdayShiftLands` | crates/krb5-admin/src/getdate.rs:690-705 | a weekday shift lands on that weekday, in the week asked for, at the same time of day, if and only if that time is representable, for every ordinal |
| `DateWords.Lex` | crates/krb5-admin/src/getdate.rs:298-368 | the lexer ends on every string, each round starting further on, with the tokens of the reference reading |
| `DateWords.ReadNumber` | crates/krb5-admin/src/getdate.rs:326-330 | digits accumulated with wrap-around are their decimal value modulo 2^64 |
| `DateWords.SkipComment` | crates/krb5-admin/src/getdate.rs:354-366 | nested comments end where their parentheses balance |
| `DateWords.CharacterClasses` | crates/krb5-admin/src/getdate.rs:303-345 | blanks, digits, signs and word characters, by their codes |
| `DateWords.SkippedText` | crates/krb5-admin/src/getdate.rs:311-366 | a sign without digits is skipped, and an unclosed comment ends the text |
| `DateWordsLaws.LexUndoesPrint` | crates/krb5-admin/src/getdate.rs:298-368 | printed numbers, words, marks and balanced comments, with any blanks that keep them apart, read back as the tokens they stand for |
| `DateParse.ReadItem` | crates/krb5-admin/src/getdate.rs:425-573 | every item takes at least one token, and only the end token ends the items |
| `DateParse.State.Parse` | crates/krb5-admin/src/getdate.rs:410-574 | parsing ends on every token list; it succeeds exactly when the tokens are items to the end, and applies them in order |
| `DateParse.OffsetIsHoursAndMinutes` | crates/krb5-admin/src/getdate.rs:379-385 | an offset `hhmm` after a time is that many hours and minutes east, and negative it is west: the instant moves by exactly so much |
| `DateParse.State.Rel` | crates/krb5-admin/src/getdate.rs:396-404 | a relative item is counted, and an `ago` after it negates both totals |
| `DateParse.RelativeTotals` | crates/krb5-admin/src/getdate.rs:396-408 | over any items the seconds and months are each amount with the sign of the `ago` words at or after it, modulo 2^64 |
| `DateParseLaws.FormReads` | crates/krb5-admin/src/getdate.rs:425-573 | each of the fourteen written forms of an item, ended by a token that does not go on with it, reads as what it says |
| `DateParseLaws.ReadIsForm` | crates/krb5-admin/src/getdate.rs:425-573 | whatever is read as an item is one of those forms, so ended |
| `DateParseLaws.GrammarIsExact` | crates/krb5-admin/src/getdate.rs:410-574 | the tokens are a specification if and only if they are such forms up to the end token, and then the items are what the forms say |
| `DateParseLaws.ParseUndoesWrite` | crates/krb5-admin/src/getdate.rs:410-574 | a specification written in any of the forms, none gluing to the next, parses to the effect of what they say |
| `GetDate.AppliedIsSaid` | crates/krb5-admin/src/getdate.rs:370-404 | whatever the items and their order, each field is as the last item said that says anything of it |
| `GetDate.MovedByMonths` | crates/krb5-admin/src/getdate.rs:707-724 | moving a time by months: nothing changes for none, and otherwise it is the same local day and time exactly where the shift lands right, in the local zone exactly in 1970 to 2099; a day missing there is refused in every zone |
| `GetDate.Specification` | crates/krb5-admin/src/getdate.rs:763-807 | every specification, `never` included: refused where a date, time, weekday or zone is repeated, or the time said cannot be converted or lies before the epoch; otherwise from the time said, or now, or midnight today, moved by the seconds totalled modulo 2^64, then by the months, then to the weekday said, at the same time of day |
| `GetDate.DateAndTimeSpecification` | crates/krb5-admin/src/getdate.rs:763-807 | a date and a time on either clock are the instant said, or refused |
| `GetDate.ClockShowsSaid` | crates/krb5-admin/src/getdate.rs:619-688 | from 1970 to 2099 the local clock at the instant said shows what was said, if and only if that was not twelve o'clock, am or pm |
| `GetDate.WeekdaySpecification` | crates/krb5-admin/src/getdate.rs:763-807 | a weekday alone is midnight of that weekday in the week asked for, counted from today |
| `GetDate.NeverIsEpoch` | crates/krb5-admin/src/getdate.rs:412-424 | `never` alone is the epoch |
| `DateText.TextIsInstant` | crates/krb5-admin/src/getdate.rs:298-807 | a moment printed as month/day/year hour:minutes:seconds, however spaced, then lexed, parsed and evaluated, is its instant, and from 1970 to 2099 the local clock then shows it |
| `Keytab.GetEntry` | crates/krb5-admin/src/kprop.rs:737-773 | the first exact version wins; not found iff no entry has the name, realm and type; version not found iff some do but none has version 0, the version or its low 8 bits |
| `Keytab.FoundMeans` | crates/krb5-admin/src/kprop.rs:737-773 | what is found has the name and realm, the type if one was asked for, and the version; the first of the very version if there is one |
| `Keytab.NotFoundMeans` | crates/krb5-admin/src/kprop.rs:737-773 | the two misses, field by field |
| `Keytab.MoreRecentMeans` | crates/krb5-admin/src/kprop.rs:775-785 | with timestamps in order the comparison is the closed form: across the wrap, or by version unless it crosses it the other way in the same second |
| `Keytab.NewestKeptExactlyWhenTold` | crates/krb5-admin/src/kprop.rs:745-785 | asked for no version, the first entry of the newest generation is kept in every file order if and only if that closed form holds against every older matching entry |
| `Keytab.FifteenIsEnough` | crates/krb5-admin/src/kprop.rs:745-785 | generations within fifteen of each other always keep the newest |
| `Keytab.SixteenIsTooFar` | crates/krb5-admin/src/kprop.rs:775-785 | sixteen generations apart there is a file order in which the older key wins |
| `Keytab.KeptForVersion` | crates/krb5-admin/src/kprop.rs:745-773 | without an exact match the first standing entry is kept, unless it is above 240 and a later one without a version is no older |
| `TicketKey.TryEvery` | crates/krb5-admin/src/kprop.rs:667-702 | a key is returned iff a wanted entry's opens the ticket, the first such; otherwise each error is given by its condition over all entries |
| `TicketKey.TryOne` | crates/krb5-admin/src/kprop.rs:642-666 | under one name the answer is what the entry found makes of the ticket; a missing name, a missing version and a failed decryption each give their error |
| `TicketKey.ChooseKey` | crates/krb5-admin/src/kprop.rs:595-703 | a chosen key is always an accepted entry's and opens the ticket under a permitted type |
| `TicketKey.HostNameMeans` | crates/krb5-admin/src/kprop.rs:624-640 | a service on a host, the host or the realm perhaps left open: what it matches and when it is explicit |
| `TicketKey.OtherNameMeans` | crates/krb5-admin/src/kprop.rs:624-640 | any other name matches whole; without a name everything does |
| `TicketKey.AcceptedMeans` | crates/krb5-admin/src/kprop.rs:642-650 | where one name is looked up, only entries of that name and realm are accepted |
| `TicketKey.OpensMeans` | crates/krb5-admin/src/kprop.rs:683-692 | a key opens the ticket only if its type is the ticket's and is permitted |
| `TicketKey.ScanErrorMeans` | crates/krb5-admin/src/kprop.rs:667-702 | codes 45, 35, 44 and 31, each by its condition over all entries |
| `TicketKey.OutcomeMeans` | crates/krb5-admin/src/kprop.rs:642-666 | what a key found under one name makes of the ticket, code by code |
| `SeqCheck.Peer.CheckSeq` | crates/krb5-protocol/src/auth_con.rs:70-109 | the expected number is always taken, another only from a peer not known to be sane and as a mangling of it |
| `SeqCheck.MangledAre` | crates/krb5-protocol/src/auth_con.rs:77-107 | the manglings, number by number |
| `SeqCheck.CheckedState` | crates/krb5-protocol/src/auth_con.rs:70-109 | what taking a number changes in the state |
| `SeqCheck.MasksAreRanges` | crates/krb5-protocol/src/auth_con.rs:77-128 | the bit masks the numbers are compared under pick out the ranges the model uses |
| `SeqCheck.StateIs` | crates/krb5-protocol/src/auth_con.rs:70-114 | after any run in order the next number modulo 2^32 is expected, and the peer is sane exactly once the first telling number was taken |
| `SeqCheck.OutOfTurnMeans` | crates/krb5-protocol/src/auth_con.rs:70-114 | which numbers are taken for which at every point of a run in order: the same number a wrap away, or a mangling until the first telling number |
| `SeqCheck.UnambiguousMeans` | crates/krb5-protocol/src/auth_con.rs:70-128 | the closed form holds if and only if no message of the run is taken at the place of another, for every first number and length |
| `DumpSize.DecodeUndoesEncode` | crates/krb5-admin/src/kprop.rs:74-105 | every 64-bit size decodes back |
| `DumpSize.EncodeUndoesDecode` | crates/krb5-admin/src/kprop.rs:86-105 | an accepted size message is the one its size encodes to, but for four zero octets |
| `DumpSize.EncodedBytes` | crates/krb5-admin/src/kprop.rs:74-84 | the octets of a size message |
| `DumpSize.DecodeMeans` | crates/krb5-admin/src/kprop.rs:86-105 | what is accepted as one |
| `Transfer.Send` | crates/krb5-admin/src/kprop/send.rs:692-758 | the sender numbers the size and every block read in order and chains each block to its place, and succeeds only if the blocks make up the size |
| `Transfer.ChunksMean` | crates/krb5-admin/src/kprop/send.rs:711-722 | the blocks are the data read before the file ends; interrupted reads make no difference |
| `Transfer.Receive` | crates/krb5-admin/src/kprop.rs:893-996 | the receiver takes messages until the announced size is reached, any other message, or a chained block out of its place, ending the transfer; it counts a block whatever its write did, and sends an error for each short or failed write and for an overrun |
| `Transfer.WrittenOctets` | crates/krb5-admin/src/kprop.rs:973-988 | the file is as long as the writes made it, each leaving the beginning of its block |
| `Transfer.ErrorsAreShortWrites` | crates/krb5-admin/src/kprop.rs:973-988 | one error for each write that left less than its block |
| `TransferLaws.SizeTaken` | crates/krb5-admin/src/kprop.rs:904-943 | the size taken is the size sent, and within the limit, for every first number |
| `TransferLaws.BlocksInOrder` | crates/krb5-admin/src/kprop.rs:948-989 | from any point on the blocks taken are those sent, in order, where they are chained or unambiguously numbered; if enough, just enough |
| `TransferLaws.TransferIsPrefix` | crates/krb5-admin/src/kprop.rs:893-996 | under any dropping, repeating and reordering of chained or unambiguously numbered messages the blocks taken are a prefix of those sent; success means the size is reached with the last block |
| `TransferLaws.UndisturbedSucceeds` | crates/krb5-admin/src/kprop.rs:893-996 | delivered in order, every dump within the limit is taken whole and the transfer succeeds, for every first number, chained or not |
| `TransferLaws.OutOfTurnIsTaken` | crates/krb5-protocol/src/auth_con.rs:70-128 | unchained, wherever a number would be taken for another, a network that only drops messages gets that block taken in the other's place |
| `TransferLaws.InTurnExactlyWhenOrdered` | crates/krb5-admin/src/kprop.rs:944-996 | blocks are taken in turn under every behaviour of the network if and only if they are chained or unambiguously numbered |
| `TransferLaws.WholeDumpTaken` | crates/krb5-admin/src/kprop.rs:893-996 | when the announced size is that of the file read through, success means every block was taken, under the same condition |
| `TransferLaws.FileIsBlocks` | crates/krb5-admin/src/kprop.rs:973-988 | the replica's file is the blocks taken if and only if every write was complete |
| `TransferLaws.NoWriteErrors` | crates/krb5-admin/src/kprop.rs:973-988 | no error is sent for the writes if and only if every write was complete |
| `TransferLaws.AcknowledgedIsStored` | crates/krb5-admin/src/kprop/send.rs:754-793 | for a sender that read its file through and was acknowledged, the replica's file is the one sent if and only if the acknowledgement was the replica's first answer, so always where answers arrive in order |
| `TransferLaws.DroppedErrorMisleads` | crates/krb5-admin/src/kprop.rs:973-1033 | for every dump with a short write, undisturbed otherwise: an error goes out first, then an acknowledgement the sender would accept, and the file is not the one sent |
| `SignalCatch.Missing` | crates/krb5-cli/src/stdin.rs:64-69 | the signals added are those asked for and not caught yet |
| `SignalCatch.Catcher.Start` | crates/krb5-cli/src/stdin.rs:91-105 | a failed start leaves the mask as it was |
| `SignalCatch.Catcher.Widen` | crates/krb5-cli/src/stdin.rs:107-125 | a failed widening unblocks only what was not blocked before any catch |
| `SignalCatch.Catcher.New` | crates/krb5-cli/src/stdin.rs:61-88 | a creation, with either system call failing, takes the thread to its specified state |
| `SignalCatch.Catcher.Drop` | crates/krb5-cli/src/stdin.rs:127-160 | a release takes the thread to its specified state |
| `SignalCatch.RunKeeps` | crates/krb5-cli/src/stdin.rs:42-172 | over every run of creations, failing or not, and releases in any order, blocked is before and caught, and caught is the disjoint union of what live catches added |
| `SignalCatch.LastReleaseRestores` | crates/krb5-cli/src/stdin.rs:141-150 | releasing the last catch restores the original mask |
| `SignalCatch.ReleaseStays` | crates/krb5-cli/src/stdin.rs:127-160 | a release leaves every live catch its signals if and only if no other one that worked wants a signal it takes away |
| `SignalCatch.CaughtExactlyWhenHarmless` | crates/krb5-cli/src/stdin.rs:42-172 | over any run of creations, failing or not, and releases, live catches keep their signals throughout if and only if every release is harmless in that sense |
| `SignalCatch.NestedStayCaught` | crates/krb5-cli/src/stdin.rs:42-172 | released last in, first out, live catches keep their signals throughout |
| `SignalCatch.OutOfOrderLoses` | crates/krb5-cli/src/stdin.rs:127-160 | released in another order a live catch can lose a signal |
| `Lines.Input.Fill` | crates/krb5-cli/src/stdin.rs:204-216 | filling makes octets available or gives the event that stops the input, and moves nothing else |
| `Lines.Fgets` | crates/krb5-cli/src/stdin.rs:291-325 | whatever the chunks and retried interrupts, a line is the shortest of through a newline, the room there is and the end, and exactly that is consumed |
| `Lines.LineHasOneNewline` | crates/krb5-cli/src/stdin.rs:307-318 | nothing before the last octet of a line is a newline |
| `Lines.LinesSpeltOut` | crates/krb5-cli/src/stdin.rs:291-325 | a line ends with octet 10, and a buffer has room for one octet less than its size |
| `Prompt.DropRestOfLine` | crates/krb5-cli/src/prompt.rs:172-180 | the loop ends, with the rest of the line gone |
| `Prompt.Hidden` | crates/krb5-cli/src/prompt.rs:60-109 | the answer and what is left of the input, bounded or not, with each failure |
| `Prompt.OnePrompt` | crates/krb5-cli/src/prompt.rs:60-109 | a first line that is all there is the bounded answer, cut to the room and to a zero octet; that line and nothing else is gone if and only if it is all there and no zero octet hides its newline from a line after it |
| `Prompt.EndTakesNextLine` | crates/krb5-cli/src/prompt.rs:60-109 | an end of the input in a line swallows the line after it |
| `Prompt.StoppedAnswer` | crates/krb5-cli/src/prompt.rs:60-109 | signal 2 in a line interrupts; another signal or a failed read cannot be read; nothing after it is lost |
| `Prompt.EachPromptALine` | crates/krb5-cli/src/prompt.rs:60-109 | prompts are answered with the lines in turn as long as these are all there and none before hides its newline, whatever stops the input; where nothing does, also with the last one and then with nothing to read |
| `Prompt.UnboundedPrompt` | crates/krb5-cli/src/prompt.rs:60-109 | without a bound the whole first line is the answer, zero octets and all |
| `CredCache.Ranked` | crates/krb5-client/src/creds.rs:295-310 | the earliest match of the best-ranked type; otherwise whether there was a match at all |
| `CredCache.Cache.Find` | crates/krb5-client/src/creds.rs:461-475 | the credential found is the client's for the server, or without a realm for it in the client's, not ended, ordinary, of the kind and type asked for, and of those the earliest of the type listed first |
| `CredCache.AnsweredMeans` | crates/krb5-client/src/creds.rs:69-100 | the cache answers exactly when it holds one with those fields of a listed type; and which miss it is otherwise |
| `CredCache.Cache.GetCredentials` | crates/krb5-client/src/creds.rs:428-504 | a held credential is returned with no request; restricted to the cache no request is made, and the miss says why; otherwise the names are asked for in turn, and the cache grows by exactly what was stored |
| `CredCache.SecondAskIsFree` | crates/krb5-client/src/creds.rs:494-503 | a credential the KDC gave and the cache stored, of a listed type and without authorization data, answers the same request with no further one until its end time |
| `CredCache.StoredAnswersExactly` | crates/krb5-client/src/creds.rs:295-310 | among credentials that do not match, the one stored answers the same request if and only if it is of a listed type, findable and not ended |
| `CredCache.WalkMeans` | crates/krb5-client/src/creds.rs:476-504 | the first name not unknown to the KDC decides |
| `CredCache.OnTheWayMeans` | crates/krb5-client/src/creds.rs:476-504 | what is stored on the way is what the names asked for brought |
| `Kpasswd.EncodeRequest` | crates/krb5-admin/src/listen.rs:638-649 | the request is the frame of its two parts |
| `Kpasswd.FrameReply` | crates/krb5-admin/src/listen.rs:103-114 | the reply is the frame of its two parts |
| `Kpasswd.RequestSplits` | crates/krb5-admin/src/listen.rs:379-405 | a request is split into its parts iff it fits in 16 bits, both are nonempty and the first is no AP-REP or KRB-ERROR |
| `Kpasswd.MessageSplits` | crates/krb5-admin/src/listen.rs:379-405 | a message of any version and parts is split if and only if its version is 1 or 0xFF80, both parts are there and the first is no reply |
| `Kpasswd.SplitIsMessage` | crates/krb5-admin/src/listen.rs:379-405 | whatever is split is such a message |
| `Kpasswd.U16Means` | crates/krb5-admin/src/listen.rs:379-405 | lengths and versions are big-endian |
| `Kpasswd.ReplyParses` | crates/krb5-admin/src/listen.rs:624-636 | a reply is split into its parts iff its first part is nonempty and fits in 16 bits |
| `Kpasswd.TagMask` | crates/krb5-admin/src/kprop/send.rs:543-545 | masking the constructed bit off leaves the two forms of each tag |
| `Kpasswd.AppTagMeans` | crates/krb5-admin/src/kprop/send.rs:543-545 | the two tags refused are those the mask tells |
| `Kpasswd.ReplyIsRefused` | crates/krb5-admin/src/listen.rs:399-405 | a framed reply sent as a request is refused, whatever its size |
| `Kpasswd.Server.AnswersAreReplies` | crates/krb5-admin/src/listen.rs:370-593 | whatever its key, its store and the message, the handler answers only what it can split, and only with a framed AP-REP and KRB-PRIV or a framed KRB-ERROR |
| `Kpasswd.ReflectionStops` | crates/krb5-admin/src/listen.rs:370-593 | servers that pass each answer on to the next give at most one answer between them, whatever is sent first |
| `Globs.StarIsAnyRun` | scripts/ci_policy/ledger.py:524-525 | a leading star stands for any run of characters |
| `Globs.Common` | scripts/ci_policy/ledger.py:527-537 | where the patterns meet, a string that matches both |
| `Globs.MeetIsCommon` | scripts/ci_policy/ledger.py:524-537 | the recursion returns true if and only if some string matches both |

## Left out

- AES, HMAC, hashing and random confounders: any block permutation and any keyed hash stand for them.
- The DES3 and RC4 profiles, checksums, pseudo-random functions and string-to-key.
- Sockets, files, locks, deadlines, child processes and logging in `kprop.rs` and `listen.rs`; the update log and the principal store. What the password-change handler calls, from reading the AP-REQ to changing the password, are any functions.
- Decoding of the AP-REQ and of messages below their frames. In the transfer cipher state is known by the number of blocks sealed before; `Chaining.PlacesStandForStates` says what that takes.
- Time-zone databases and daylight saving: a zone is a fixed offset of whole minutes, for which the local time is never daylight time.
- The tables of words, units and zones in `getdate.rs`: the lexer takes the lookup of a word as a parameter.
- DateParse.State.Parse: what the fields hold after a failed parse is not stated, because the caller drops them.
- DateConvert.Convert: subtracting an hour for daylight time wraps in the model, where a checked build would stop.
- GetDate.Specification: a weekday numbered outside 0 to 6, which no word stands for, is not stated, nor what becomes of a weekday so far off that its time goes round the 64-bit word.
- Chaining.PlacesStandForStates: that the keyed hash does not agree by chance is a premise.
- SignalCatch.Catcher.New: the system calls that put a mask back after a failure are taken to work, as the source takes them to.
- SignalCatch.Catcher.Drop: reading pending signals from the descriptor is not modelled, and the call that restores the mask is taken to work.
- Terminal modes and echo; the messages printed by the tools.
- The rest of the repository: the KDC, the protocol exchanges, configuration, ASN.1 wrappers, the C oracles, fuzz targets and the CI scripts but for `_globs_meet`.
