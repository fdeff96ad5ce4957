# Verified model of the experiment repository's hand-written algorithms

The repository collects C++ library experiments; a handful of its files hold
algorithms of their own. This project models these algorithms in Dafny, in the
form the source gives them (classes and buffers changed in place, loops over
cursors, posted handlers), and proves what they are for. Where a promise turns
out not to hold for every input, the model keeps the code's behaviour and proves
exactly when it holds.

`dafny verify dfyconfig.toml` checks the whole project.

| file | what it models |
|---|---|
| Calendar.dfy | the proleptic Gregorian calendar as a reference: next day, day numbers |
| PoboDate.dfy | the `Date` structure and its closed-form conversions |
| PackedDate.dfy | YYYYMMDD dates: next and previous day, day of year, day count, date difference, week count |
| OtherDay.dfy | `GetOtherDay`, moving a packed date by a span |
| Bytes.dfy, Characters.dfy, Sequences.dfy | bytes and C strings; characters of one or several bytes; trimming |
| Base64.dfy | RFC 4648 encoding and decoding as references, and their round trip |
| Base64Buffers.dfy | the streaming encoder, the filter and the group decoder over bounded buffers |
| Escape.dfy, KeyedRecord.dfy | escaped values, and parameter lookup in key=value records |
| Utf.dfy, Utf8Text.dfy | UTF-8 and UTF-16 encoders, text classification, cutting between characters |
| Gbk.dfy | GBK copying, deletion and column reading |
| AsioClient.dfy | the write queue of the asynchronous client and its event loop |
| ConnPool.dfy | the connection pool under interleaved clients |
| Fields.dfy | splitting, joining, replacing fields, folding spaces |

## Reading the model

- A `char` is a `bv8`, so that masks and shifts are the source's own. Integers are
  unbounded; where the source narrows (`short` years) or wraps (`size_t` positions)
  the model says so. C++ division is `PoboDate.Quot`, truncating toward zero.
- A text in a buffer is `Bytes.HoldsText`: the characters and a NUL behind them.
- `strstr`, `find_first_of`, `std::string::replace`, `memcpy`, `memmove`, `strncpy`
  and `strlen` are modelled by what their documentation says of them.
- Random outcomes of the environment (a failing write, a lost connection, the clock)
  are parameters of the steps.

## Where the code and its documentation part

- `getweek` (CommonTools/STD.cc:1032) is commented as week * 10 + weekday, and as
  week * 7 + weekday in the header. The second is what it does from 1980 to the year 32767.
- `GetOtherDay` is documented to answer the date nSpan days away. It does so exactly
  under the condition of `OtherDay.AnswerExact`; 1 January with span 0 is a
  counterexample.
- `DateMinus` is documented as date1 - date2. Its count is `days_num(date1, date2)`,
  which is inclusive and has the opposite sign: it is the difference for no two dates
  (`PackedDate.DateMinus`, `PackedDate.CountIsNoDifference`,
  `PackedDate.CastCountIsNoDifference`).
- `Base64Filter` is documented to filter out wrong characters. It writes no new
  terminator, so the text keeps its length (`Base64Buffers.FilterExact`).
- The Base64 encoder, stopped by a full buffer before the third byte of a group, still
  appends padding when the input length is no multiple of 3
  (`Base64Buffers.EncoderPrefixExact`).
- `GetPara` is documented with '|' between the fields, but escaping does not replace '|':
  a value comes back exactly when it is free of it (`KeyedRecord.PlainValueExact`), and from
  `k=x|h=1|2` the lookup of h gives 1 (`KeyedRecord.BarCutsValue`).
- `GetPara` cuts the search key to 99 characters but skips its full length, so that keys of more
  than 97 characters can lead it beyond the source (`KeyedRecord.LongKeyLeaves`).
- `get_utf8_words` is documented with src_len as the length of the source. A character that
  starts before src_len and ends behind it is copied whole, so that the result can exceed
  src_len (`Utf8Text.GetUtf8Words`, `Utf8Text.LeadByteStandsAcross`).
- `ReplaceByDelim` keeps the last character of a non-empty last field
  (`Fields.ReplacedExact`).
- `to_utf_8` and `to_utf_16` accept surrogates (`Utf.Utf8WellFormedExact`,
  `Utf.Decode16Exact`).
- `CreateConn` loses the connection when `Create` throws: its handler answers a standard
  exception with a null pointer and lets any other pass, and frees nothing
  (`ConnPool.LostExact`, `ConnPool.LeakExact`).
- `Base64Decode` called with one buffer for both texts ends the text before it reads it,
  and decodes nothing (`Base64Buffers.Base64Decode`).

## Model

| member | source | states |
|---|---|---|
| Calendar.CivilOf | CommonTools/PoboDate.h:252-270 | the date n calendar days after (or before) 1 March of year 0, reached by stepping day by day, has day number n: the reference both date libraries are judged by |
| Calendar.DayNumberOrders | CommonTools/PoboDate.h:187-210 | day numbers order valid dates exactly as (year, month, day) does, and equal numbers mean equal dates |
| Calendar.NextAddsOne | CommonTools/STD.cc:943-969 | the following calendar day, leap years and month ends included, has the following day number |
| PoboDate.ToDaysIsDayNumber | CommonTools/PoboDate.h:243-250 | for every valid date from 0000-03-01 on, `to_days` with its truncating divisions is the number of calendar days since that date |
| PoboDate.EstimateWithinOne | CommonTools/PoboDate.h:259 | the year estimate (10000 * days + 14780) / 3652425 is the March-based year that contains the day or one too high, never low |
| PoboDate.CorrectionSuffices | CommonTools/PoboDate.h:260-265 | one correction lands on the containing year and leaves an offset of 0 to 364, or 365 before a leap day |
| PoboDate.MonthIndexInSpan | CommonTools/PoboDate.h:266 | (52 + 100 * ddd) / 3060 picks the month whose span holds the offset |
| PoboDate.FromDaysIsCivilOf | CommonTools/PoboDate.h:252-270 | `from_days` of every n >= 0 is a valid date, and the one n calendar days after day 0 |
| PoboDate.FromDaysToDays | CommonTools/PoboDate.h:243-270 | `from_days(to_days(d)) == d` for every valid date from 0000-03-01 on |
| PoboDate.ToDaysFromDays | CommonTools/PoboDate.h:243-270 | `to_days(from_days(n)) == n` for every n >= 0 |
| PoboDate.LeapDayOfYearZeroCollides | CommonTools/PoboDate.h:243-270 | below that domain the round trip fails: 0000-02-29 and 0000-03-01 share day number 0 |
| PoboDate.YearZeroExact | CommonTools/PoboDate.h:243-270 | of the dates of year 0 every one survives the round trip except 29 February |
| PoboDate.AdditionComposes | CommonTools/PoboDate.h:217-241 | (d + n) + k == d + (n + k) and (d + n) - n == d whenever d + n has a non-negative day number |
| PoboDate.OperatorsFollowCalendar | CommonTools/PoboDate.h:187-215 | on valid objects >, >=, <, <= and == compare calendar dates and date - date is the number of calendar days between them |
| PoboDate.Date.constructor | CommonTools/PoboDate.h:138-142 | the fields are the arguments and the stored day number is the one they convert to |
| PoboDate.Date.Copy | CommonTools/PoboDate.h:144-150 | a copy has the fields and the day number of the original |
| PoboDate.Date.Assign | CommonTools/PoboDate.h:152-160 | assignment takes over the fields and recomputes the day number |
| PoboDate.Date.SetFromDays | CommonTools/PoboDate.h:252-270 | the in-place computation is `FromDays`; from non-negative numbers it leaves a valid date whose day number converts back |
| PoboDate.Date.AddAssign | CommonTools/PoboDate.h:237-241 | the day number grows by n, the fields are the date of the new number, and validity is kept while it stays non-negative |
| PoboDate.Date.SubtractAssign | CommonTools/PoboDate.h:224-228 | the same for subtraction |
| PoboDate.Date.Add | CommonTools/PoboDate.h:230-235 | a fresh object holds the date n days later; the receiver keeps its value |
| PoboDate.Date.Subtract | CommonTools/PoboDate.h:217-222 | a fresh object holds the date n days earlier |
| PoboDate.AddThenSubtract | CommonTools/PoboDate.h:224-241 | d += n followed by d -= n restores the date |
| PackedDate.PackOrders | CommonTools/STD.cc:989-995 | packed YYYYMMDD numbers compare as their dates do |
| PackedDate.NextDateIsNext | CommonTools/STD.cc:943-969 | `getnextdate` answers the packed following calendar day |
| PackedDate.PreviousDateExact | CommonTools/STD.cc:457-473 | `getpreviousrq` answers the packed preceding day if and only if the day is above 1 or the year fits a short |
| PackedDate.WrappedPrevious | CommonTools/STD.cc:457-473 | a witness: the day before the first of year 32768 |
| PackedDate.PreviousUndoesNext | CommonTools/STD.cc:457-473 | `getpreviousrq(getnextdate(rq)) == rq` if and only if the successor is no first of a month or its year fits a short |
| PackedDate.NextDatesAddDays | CommonTools/STD.cc:943-969 | n applications of `getnextdate` reach the date whose day number is n higher |
| PackedDate.NextDatesIsDateAddition | CommonTools/STD.cc:943-969 | n applications of `getnextdate` equal adding n days to a `Date`: the two libraries agree |
| PackedDate.DaysOfYear | CommonTools/STD.cc:971-984 | the month-table loop computes the position of the day in its year as the difference of closed-form day numbers |
| PackedDate.DaysNum | CommonTools/STD.cc:986-1030 | the year-summing loop computes the inclusive day count between two dates, negated when they are reversed, for years a short holds; when the earlier year is below 32767, if and only if the later one is at most 32767; in all other cases the value is stated too |
| PackedDate.DateMinus | CommonTools/STD.cc:534-540 | the documented difference date1 - date2, with 0 standing for today, is the inclusive count from date1 to date2 for years a short holds, and for no two dates of any years the difference |
| PackedDate.CountIsNoDifference | CommonTools/STD.cc:534-540 | for all dates that count is the negated difference of the day numbers plus 1 in order and minus 1 in reverse, and never equals the difference |
| PackedDate.CastCountIsNoDifference | CommonTools/STD.cc:986-1030 | what is counted, wrapped years included, is never the difference of the day numbers |
| PackedDate.CountExact | CommonTools/STD.cc:986-1030 | from a year below 32767 the count is the true one if and only if the last year is at most 32767 |
| PackedDate.WrappedCounts | CommonTools/STD.cc:986-1030 | witnesses: the counts from 2000 to 40000 and from 32767 to 32769 |
| PackedDate.GetWeek | CommonTools/STD.cc:1032-1037 | 2 before 1980; from then on the number of days since 30 December 1979 if and only if the year is at most 32767 |
| PackedDate.WeekCountGivesWeekday | CommonTools/STD.cc:1032-1037 | that count modulo 7 is the day of the week (Zeller's congruence, Sunday 0) and grows by one with each calendar day |
| OtherDay.GetOtherDay | CommonTools/STD.cc:348-455 | both table loops terminate and answer `Answer`, for every valid packed date and every span |
| OtherDay.AnswerExact | CommonTools/STD.cc:348-455 | the answer is the date span days away if and only if day-of-year + span >= 32, or it is negative and the target is neither in January nor the last day of its month |
| OtherDay.NewYearMovesBack | CommonTools/STD.cc:404-409 | a witness: span 0 from 1 January answers 1 December of the year before |
| OtherDay.WrongAnswers | CommonTools/STD.cc:404-455 | what is answered in each of the other cases: day 0 of February, a day of December of the year before, day 0 of the next month, or a month 13 |
| Base64.AlphabetInverse | CommonTools/STD.cc:1303-1315 | `Chr2Base` undoes the alphabet on all 64 sextets; its characters pass the filter and are never '=' or NUL |
| Base64.AlphabetIsTable | CommonTools/STD.cc:1303-1315 | the 64 characters are those of table 1 of RFC 4648 in its order, and `Chr2Base` answers their places |
| Base64.LegalExact | CommonTools/STD.cc:1281-1315 | what the filter lets through is exactly the table, '%' and '='; what the table does not hold decodes as 63 |
| Base64.DecodeEncode | CommonTools/STD.cc:1317-1485 | decoding the RFC 4648 encoding of any byte string gives the string back |
| Base64.DecodedCount | CommonTools/STD.cc:1362-1374 | the number of decoded bytes by the last two characters |
| Base64.PaddingTellsLength | CommonTools/STD.cc:1362-1374 | the padding at the end of an encoding determines the exact input length |
| Base64.TestVectors | CommonTools/STD.cc:1403-1431 | the reference encoding reproduces vectors of section 10 of RFC 4648 |
| Base64Buffers.Base64Encode | CommonTools/STD.cc:1433-1485 | for every input and capacity the buffer holds `EncoderOutput` and its terminator, and nothing behind it changes |
| Base64Buffers.EncodeStream | CommonTools/STD.cc:1435-1471 | the streaming loop with pending bits writes a prefix of the reference encoding and stops exactly where a room test fails |
| Base64Buffers.EncoderCompleteExact | CommonTools/STD.cc:1433-1485 | the whole encoding is produced if and only if the input is empty or the capacity exceeds the length of the encoding by 6, 4 or 5, by length modulo 3 |
| Base64Buffers.EncoderPrefixExact | CommonTools/STD.cc:1462-1482 | a short buffer gets a prefix of the encoding if and only if the encoder does not pad after stopping inside a group; the condition is arithmetic on n and len alone |
| Base64Buffers.EarlyPaddingShows | CommonTools/STD.cc:1472-1482 | in that case a '=' stands where the encoding has an alphabet character |
| Base64Buffers.EarlyPaddingDecodes | CommonTools/STD.cc:1472-1482 | in that case the output decodes to a shorter prefix of the input, for both lengths modulo 3 that need padding |
| Base64Buffers.EncoderOutputFits | CommonTools/STD.cc:1439-1483 | text and terminator always fit into len >= 1 bytes |
| Base64Buffers.Base64Filter | CommonTools/STD.cc:1281-1300 | the in-place filter moves the characters that are in the table, '%' or '=' to the front, leaves the old tail behind them, and does nothing for a null pointer |
| Base64Buffers.FilterSelects | CommonTools/STD.cc:1281-1300 | what is moved to the front is the text without the characters outside the table, '%' and '=' |
| Base64Buffers.LineBreakIsDropped | CommonTools/STD.cc:1281-1300 | a witness: a line break is filtered out wherever it stands |
| Base64Buffers.FilterExact | CommonTools/STD.cc:1281-1300 | the text after filtering consists of the legal characters if and only if all were legal (no new terminator is written) |
| Base64Buffers.EncodingPassesFilter | CommonTools/STD.cc:1317-1320 | an encoding passes the filter unchanged |
| Base64Buffers.DecodeGroups | CommonTools/STD.cc:1337-1356 | the first decoder loop writes whole decoded groups until room runs out |
| Base64Buffers.DecodeLastGroup | CommonTools/STD.cc:1357-1398 | the last-group path, taken also after an early break, writes the decoded bytes the padding leaves when they fit |
| Base64Buffers.Base64Decode | CommonTools/STD.cc:1317-1401 | for any text and capacity the result is the longest group-wise prefix of the decoding that fits, terminated, with its length returned; into the buffer it reads from it decodes nothing |
| Base64Buffers.DecodedLength | CommonTools/STD.cc:1340-1400 | that prefix never exceeds the room, and is everything exactly when everything fits |
| Base64Buffers.CutNearRoom | CommonTools/STD.cc:1340-1400 | else it leaves less than three bytes of the room unused, and ends between groups or behind one shortened by the padding |
| Base64Buffers.DecoderRoundTrip | CommonTools/STD.cc:1317-1401 | an encoding decoded into outLen bytes gives a prefix of the input, all of it if and only if the input is empty or shorter than outLen |
| Escape.UnescapeEscapeThen | CommonTools/STD.cc:840-941 | unescaping an escaped value followed by anything gives the value and continues behind it |
| Escape.UnescapeEscape | CommonTools/STD.cc:840-941 | unescape is the inverse of escape on every byte string |
| Escape.EscapeTable | CommonTools/STD.cc:847-905 | the escapes of backslash, '=', '&' and newline are a backslash with backslash, a, b and n; every other character stands for itself |
| Escape.UnescapeTable | CommonTools/STD.cc:918-936 | the same table read back; an unknown pair and a backslash at the end give a backslash |
| Escape.EscapeHasNoSeparators | CommonTools/STD.cc:847-905 | an escaped value contains no '=', '&' or newline, and no NUL when the value has none |
| Escape.Fitting | CommonTools/STD.cc:844-910 | the longest prefix whose escape fits: it fits and one character more does not |
| Escape.ToEscaped | CommonTools/STD.cc:840-911 | `to_zhuangyi_string` writes the escape of the longest prefix that fits, never half a pair, for every size |
| Escape.GetUnescaped | CommonTools/STD.cc:913-941 | `Get_zhuanyi_string` writes the unescaped text cut to the size, also when source and destination are the same buffer |
| KeyedRecord.CopyField | CommonTools/STD.cc:1096-1112 | the copy loop leaves the raw field up to a separator, the end of text, or the end of room |
| KeyedRecord.GetPara | CommonTools/STD.cc:1075-1119 | the buffer ends up holding the unescaped raw field found for the key, or nothing |
| KeyedRecord.ValueStartExact | CommonTools/STD.cc:1081-1096 | for any separators, the value starts behind the parameter at the very front, else behind the first place where first separator, parameter and second separator stand together |
| KeyedRecord.ShortKeysStayInside | CommonTools/STD.cc:1089-1096 | keys of at most 97 characters satisfy the requirement of the lookup, since the 100-byte search key holds them whole |
| KeyedRecord.LongKeyLeaves | CommonTools/STD.cc:1089-1096 | every longer key free of the separator breaks it for some source: the search key is cut to 99 characters and found, but skipped in its full length, beyond the terminator |
| KeyedRecord.TailLookup | CommonTools/STD.cc:1089-1092 | searching fields for separator, key and '=' stops at the first pair with the key, whatever the values contain: their escapes hold no '=', so no field starts inside them |
| KeyedRecord.RecordLookup | CommonTools/STD.cc:1079-1096 | in a printed record of arbitrary values the value found belongs to the first pair with the key, whether first in the record or not |
| KeyedRecord.LookupOfRecord | CommonTools/STD.cc:1075-1119 | for any separator but '=' and arbitrary values, looking a key up in a printed record gives the first value with that key as far as its escape fits and is free of the separator, and nothing when no pair has the key |
| KeyedRecord.LookupUnderAmpersand | CommonTools/STD.cc:1075-1119 | under '&' this holds for every list of pairs and every value: the value comes back whole when its escape fits |
| KeyedRecord.ValueExact | CommonTools/STD.cc:1075-1119 | under any separator but '=' and for every size, the value of the first pair with the key comes back if and only if its escape is free of the separator and fits, up to half a final backslash |
| KeyedRecord.PlainValueExact | CommonTools/STD.cc:1061-1064 | under a separator that escaping neither replaces nor writes, such as the default '|', a value that fits comes back if and only if it does not contain the separator |
| KeyedRecord.BarCutsValue | CommonTools/STD.cc:1061-1064 | a witness: a value containing '|' is cut there |
| KeyedRecord.FirstValueExact | CommonTools/STD.cc:1079-1116 | for the first pair of a record the same equivalence needs nothing of keys, other pairs or separator |
| KeyedRecord.WholeValueExact | CommonTools/STD.cc:1096-1116 | the first room characters of an escape stand for the whole value if and only if the escape fits, or is one too long and ends in an escaped backslash |
| KeyedRecord.CutEscape | CommonTools/STD.cc:1096-1116 | otherwise the values that fit come back, with a backslash where a pair was split |
| Utf.ToUtf8 | Standard/std_attri/Features.hpp:36-68 | appends the encoding of a code point up to 0x10FFFF and refuses others, leaving the text alone |
| Utf.ToUtf16 | Standard/std_attri/Features.hpp:13-34 | the same for UTF-16 |
| Utf.DemonstrationUtf8 | Standard/std_attri/Features.hpp:70-104 | the three code points of the demonstration in UTF-8 |
| Utf.DemonstrationUtf16 | Standard/std_attri/Features.hpp:70-104 | and in UTF-16 |
| Utf.Utf8Unit | Standard/std_attri/Features.hpp:43-67 | an encoded code point is a lead byte announcing its length, continuation bytes, and carries the code point's bits |
| Utf.Decode8Utf8All | Standard/std_attri/Features.hpp:36-68 | reading by lead bytes recovers every sequence of code points from its concatenated UTF-8 |
| Utf.Utf8WellFormedExact | Standard/std_attri/Features.hpp:36-68 | the output is well-formed by section 4 of RFC 3629 if and only if the code point is no surrogate (the encoder does not reject them) |
| Utf.Decode16Exact | Standard/std_attri/Features.hpp:13-34 | reading back UTF-16 recovers the sequence if and only if no high surrogate was passed directly before a low one |
| Utf8Text.CheckTextType | CommonTools/STD.cc:1511-1597 | UTF8 is answered if and only if the bytes are a concatenation of whole units of one to six bytes, and, by the ranges of the bytes, if and only if each byte that leads is followed by exactly the bytes 80 to BF it wants and none of these stands first |
| Utf8Text.UnitTextExact | CommonTools/STD.cc:1511-1597 | the two characterisations agree on every byte string |
| Utf8Text.GbkPairIsNotLed | CommonTools/STD.cc:1589-1592 | a witness: the GBK bytes B0 A1 are no UTF-8 |
| Utf8Text.EncodingsAreUnitText | CommonTools/STD.cc:1511-1597 | every concatenation of `to_utf_8` outputs is classified UTF8 |
| Utf8Text.GetUtf8Words | CommonTools/STD.cc:1745-1781 | copies the longest run of whole characters that leaves room for the terminator, and handles null pointers; more than src_len bytes are taken if and only if a character stands across src_len and fits |
| Characters.SizesByRange | CommonTools/STD.cc:1750-1767 | the sizes the cutting functions count with, by the ranges of the first byte; a byte that leads nothing counts as one character |
| Utf8Text.LeadByteStandsAcross | CommonTools/STD.cc:1745-1781 | a witness: asked for the one byte 0xE4, it takes three bytes whenever dest_size exceeds 3 |
| Utf8Text.EncodingIsReadable | CommonTools/STD.cc:1769-1777 | on encodings the copy never reads past the source |
| Utf8Text.CutOfEncoding | CommonTools/STD.cc:1745-1781 | on encodings the cut keeps the encodings of as many leading code points as fit, and decodes to exactly these |
| Gbk.StrncpyGbk | CommonTools/STD.cc:691-735 | copies everything when it fits, else the longest run of whole characters that leaves room for the terminator |
| Gbk.StrNCpy | CommonTools/STD.cc:697 | strncpy of the whole source, zeros following a NUL |
| Gbk.CopiedStops | CommonTools/STD.cc:697 | a copied source is its text before the first NUL and zeros from there on |
| Gbk.DeleteCtrlCharFromGbk | CommonTools/STD.cc:1165-1198 | the in-place loop leaves the text without the single-byte characters equal to ch, for any buffer and for null |
| Gbk.DeletedCharacters | CommonTools/STD.cc:1165-1198 | read again, the result has exactly the characters of the original other than the ASCII byte ch, boundaries kept |
| Gbk.TokensByRange | CommonTools/STD.cc:1172-1190 | a byte from 80 on is read with the one behind it, any other alone; what is deleted is the ASCII byte ch standing alone |
| Gbk.ReadColumn | CommonTools/STD.cc:1215-1246 | the buffer holds the next column, cut to its size and trimmed, and the position behind its separator is returned |
| Gbk.PairIsRead | CommonTools/STD.cc:1210-1243 | a byte 81 to FE and a byte 40 to FE behind it are read together, whatever the separator |
| Gbk.ByteIsRead | CommonTools/STD.cc:1210-1243 | every other byte is read alone, and only a separator read alone ends the column |
| Gbk.SeparatorByteInsidePair | CommonTools/STD.cc:1210-1243 | a witness: under '|' (7C) the column 95 7C ends at the second 7C |
| Gbk.ColumnsByRange | CommonTools/STD.cc:1210-1213 | every pair of these ranges, and every ASCII byte but NUL and the separator, is a character of columns |
| Gbk.TrimInPlace | CommonTools/STD.cc:1221-1233 | the two scans and the move trim the bytes where they stand |
| Gbk.TrimmedBytes | CommonTools/STD.cc:1221-1233 | what is trimmed off are the bytes 20 at both ends, and nothing else |
| Gbk.ColumnEndsAtSeparator | CommonTools/STD.cc:1219-1243 | a column ends at its separator even when second bytes equal the separator |
| Gbk.ReadColumnsOfJoined | CommonTools/STD.cc:1215-1246 | reading a joined row column by column gives every column, cut to the buffer and trimmed |
| Gbk.CharactersAgree | CommonTools/STD.cc:1210-1246 | on columns the copier, which goes by lead bytes, and the reader, which goes by byte pairs, stop at the same positions |
| Gbk.TokensAgree | CommonTools/STD.cc:1165-1198 | and the characters the deleter takes off the front are the same |
| Gbk.ColumnCutExact | CommonTools/STD.cc:1215-1246 | what the reader leaves of a column, cut and trimmed, consists of whole characters if and only if the column fits or a character ends at the cut |
| AsioClient.StepKeepsInv | LibraryUse/AsioUse/asio_client.h:36-48 | every handler keeps: one write at most, equal to the front of the queue; a write in flight iff the queue is non-empty until an error; lines conserved in order |
| AsioClient.EveryRunIsSafe | LibraryUse/AsioUse/asio_client.h:36-142 | over every run: at most one write, delivered lines are a prefix of the posted ones, delivered ++ queue are the executed sends |
| AsioClient.DeliveredWereSent | LibraryUse/AsioUse/asio_client.h:36-142 | over every run, what was delivered and what is queued are together the first messages handed to send, each with a newline behind it, as many as handlers have run |
| AsioClient.PostedAreSent | LibraryUse/AsioUse/asio_client.h:36-48 | the lines of what was posted are the messages of the send events, each with a newline behind it |
| AsioClient.DrainDelivers | LibraryUse/AsioUse/asio_client.h:118-136 | from any reachable state without a failed write, running the pending handlers and completing writes delivers every posted line |
| AsioClient.AllSentDelivered | LibraryUse/AsioUse/asio_client.h:36-136 | a run without failed writes goes on, by running handlers and completing writes alone, to deliver every message sent with its newline, in order |
| AsioClient.FailureIsFinal | LibraryUse/AsioUse/asio_client.h:137-140 | after a failed write nothing is delivered or started any more; the queue only grows |
| AsioClient.SecondRead | LibraryUse/AsioUse/asio_client.h:127-135 | a witness: draining the queue starts a second read beside the self-rearming one |
| AsioClient.DrainStartsRead | LibraryUse/AsioUse/asio_client.h:122-136 | a successful completion starts a read if and only if the lines delivered with it are as many as the send handlers run |
| AsioClient.EventsTell | LibraryUse/AsioUse/asio_client.h:36-136 | handlers run, lines delivered and failure are told by their events in the run |
| AsioClient.ReadsExact | LibraryUse/AsioUse/asio_client.h:83-135 | counted off from the events of a run alone, the reads outstanding are the connections, plus the completions that catch up with the send handlers run so far, less the failed reads; at most one is outstanding if and only if the former exceed the latter by at most one |
| AsioClient.Client.Send | LibraryUse/AsioUse/asio_client.h:36-48 | posting adds the message to what will be executed and changes nothing else |
| AsioClient.Client.OnSend | LibraryUse/AsioUse/asio_client.h:39-47 | the posted handler makes exactly the model's step and keeps the invariant |
| AsioClient.Client.OnWritten | LibraryUse/AsioUse/asio_client.h:122-141 | the write handler makes exactly the model's step and keeps the invariant |
| AsioClient.Client.OnConnected | LibraryUse/AsioUse/asio_client.h:83-88 | the connect handler starts the first read |
| AsioClient.Client.OnRead | LibraryUse/AsioUse/asio_client.h:98-116 | the read handler re-arms itself unless it failed |
| ConnPool.SweepSplits | CommonTools/ConnPool.h:149-166 | the swap-with-last sweep splits the connections into the valid ones kept and the others freed, none lost or doubled |
| ConnPool.ConnPool.TakePooled | CommonTools/ConnPool.h:61-69 | the locked part of `GetConnect` pops the last pooled connection, if any |
| ConnPool.ConnPool.CreateConn | CommonTools/ConnPool.h:115-135 | whatever the constructor and `Create` do, the answer is the connection, nothing after a refusal or a standard exception, or the exception, which is never a standard one; a refused connection is freed, one whose `Create` threw is not |
| ConnPool.ConnPool.TryCreate | CommonTools/ConnPool.h:118-130 | the guarded block: an exception leaves it where it is thrown, with the connection constructed so far |
| ConnPool.AnswerExact | CommonTools/ConnPool.h:115-135 | which exceptions reach the caller, when the caller gets a connection, when nothing, and when a connection is freed, each if and only if |
| ConnPool.ConnPool.PutConnect | CommonTools/ConnPool.h:88-103 | pushes the connection, or frees it when 8192 are pooled; a null pointer changes nothing |
| ConnPool.ConnPool.ReleaseConnect | CommonTools/ConnPool.h:107-112 | frees the connection; a null pointer changes nothing |
| ConnPool.ConnPool.CheckConnect | CommonTools/ConnPool.h:138-169 | the in-place loop terminates, computes the sweep and frees in order; within a second of the last check nothing changes |
| ConnPool.ConnPool.GetConnect | CommonTools/ConnPool.h:59-73 | the last pooled connection, or the outcome of making one when none is pooled |
| ConnPool.ConnPool.GetConnectWithCheckConnectFlag | CommonTools/ConnPool.h:79-84 | the check, then the same; a pooled connection handed out after a check that was due is valid |
| ConnPool.StepMoves | CommonTools/ConnPool.h:59-169 | every atomic step conserves connections over pool, clients and freed ones, and adds the next new one unless its `Create` throws |
| ConnPool.RunConserves | CommonTools/ConnPool.h:59-169 | over every run each connection made is in exactly one place, once, or nowhere if its `Create` threw |
| ConnPool.RunKeepsBound | CommonTools/ConnPool.h:88-103 | no run pools more than 8192 connections |
| ConnPool.PooledWereValidOrPut | CommonTools/ConnPool.h:138-169 | over every run each pooled connection is among those that the last check that was due found valid, read off the events, or was put after it |
| ConnPool.EveryRunIsSafe | CommonTools/ConnPool.h:59-169 | in every interleaving: no connection in two places or with two clients, none freed twice, the pool bounded, pooled ones found valid by the last check that was due or put since |
| ConnPool.LostExact | CommonTools/ConnPool.h:115-135 | a connection made is out of reach, neither pooled, held nor freed, if and only if its own `Create` threw, whichever exception; it is somewhere if and only if its `Create` returned |
| ConnPool.LeakExact | CommonTools/ConnPool.h:115-135 | some connection is lost if and only if some `Create` call of the run throws |
| ConnPool.CheckIsExact | CommonTools/ConnPool.h:138-169 | a check that is due keeps exactly the valid pooled connections and frees exactly the others |
| ConnPool.EarlyCheckSkips | CommonTools/ConnPool.h:142-147 | a check within a second of the last one changes nothing; any other is due |
| ConnPool.PutThenTake | CommonTools/ConnPool.h:59-103 | the pool is a stack: what was put last is taken first |
| ConnPool.PutExact | CommonTools/ConnPool.h:88-103 | what is put is kept by a pool of less than 8192 connections and freed by a full one |
| ConnPool.DestroyFrees | CommonTools/ConnPool.h:40-54 | destroying the pool frees every pooled connection, and nothing happens afterwards |
| ConnPool.ConnPool.Destroy | CommonTools/ConnPool.h:40-54 | the loop of the destructor frees the pooled connections in order |
| Fields.Split | CommonTools/StringFunc.cc:77-99 | the loop answers all fields but an empty last one |
| Fields.JoinWithDelim | CommonTools/StringFunc.cc:280-293 | the loop joins the texts with single delimiters between them |
| Fields.JoinOfSplit | CommonTools/StringFunc.cc:77-99 | joining a split text gives it back, less one delimiter at its end |
| Fields.SplitOfJoinExact | CommonTools/StringFunc.cc:77-99 | splitting joined delimiter-free texts gives them back if and only if there are none or the last is non-empty |
| Fields.JoinFields | CommonTools/StringFunc.cc:280-293 | joining all fields of a text gives the text |
| Fields.FieldsOfJoin | CommonTools/StringFunc.cc:280-293 | the fields of joined delimiter-free texts are these texts |
| Fields.ReplaceByDelim | CommonTools/StringFunc.cc:338-355 | the in-place edit computes `Replaced` for every text, n and replacement, the wrapped sizes included |
| Fields.ReplacedExact | CommonTools/StringFunc.cc:338-355 | field n is replaced if and only if it is not the last field or is empty; else its last character stays |
| Fields.ReplacedElsewhere | CommonTools/StringFunc.cc:338-355 | without a field n, or in a non-empty last one, the last character of the text stays behind the replacement |
| Fields.ReplacedFields | CommonTools/StringFunc.cc:338-355 | a delimiter-free replacement changes field n and leaves all others |
| Fields.FoldSpace | CommonTools/StringFunc.cc:129-143 | the result is the space-separated words joined by single spaces |
| Fields.FoldKeepsWords | CommonTools/StringFunc.cc:129-143 | folding keeps the words, so folding twice is folding once |
| Fields.FoldShape | CommonTools/StringFunc.cc:129-143 | folding keeps every other character, leaves no spaces at the ends and never two side by side |

## Left out

- PoboDate.Date.SetFromDays: says nothing about validity for negative day numbers; the truncating divisions make some of them collide, as `LeapDayOfYearZeroCollides` shows. Of the years before 0 the round trip is not claimed either way.
- PackedDate.DaysNum: from years of 32767 on, whose casts to short or whose next year wraps, the contract states what is counted (`CastCount`), and not when that is the number of days after all.
- OtherDay.GetOtherDay: the packed result is computed in unbounded integers; overflow of a 32-bit int for years above 214748 is not modelled.
- KeyedRecord.GetPara: requires that the position after the found key lies inside the source, which for keys longer than 97 characters (`KeyedRecord.LongKeyLeaves`) the caller has to know, since the model does not say what lies behind the source; separators are assumed not to be NUL.
- Utf8Text.GetUtf8Words: requires that the last character that starts before the given length can be read to its end.
- ConnPool.EveryRunIsSafe: clients are assumed to give up what they put or release; the pool's destructor is the last event of a run.
- The `Date` constructors from a string and from the clock, and `to_string`: atoi, localtime and sprintf are not part of this model.
- Overflow of 32-bit and 64-bit integers, other than the casts to short and the wrapped `size_t` counts named above.
- `Base2Chr` (the '%2B' form), `UrlEncode`, `AnsiToURLEncode`, `ChangeStingBy`, `TranslateData`, `TrimChar`: one-way variants that would only repeat weaker forms of the escape and encoding results.
- The free functions `days_num` and `days_of_year`, which duplicate the `STD` members, and the three-argument and integer-valued `GetPara` wrappers.
- `ReplaceStr`, `EndsWith`, `SplitWithStrip`, `ParseIncludedStr` and the other string helpers.
- Timers, name resolution and socket operations of the client beyond "started" and "completed"; the content of what is read.
- Floating-point and formatting helpers, files, sockets, databases, logging and the language and library demonstrations.
