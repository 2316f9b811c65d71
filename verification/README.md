# Dafny model of the digital-human HTTP server

Models and proofs about five parts of the server, kept as one Dafny 4.11 project.
`dafny verify dfyconfig.toml` checks all of it.

**The CRC library** (`inc/boost/crc.hpp`). Registers are sequences of bits, index i holding the coefficient of
x^i; the width `Bits` (n) and the width of the built-in register are separate, so the unregulated bits above n are
part of the model. `CrcSpec` is bit-serial division, `CrcPoly` proves that it is polynomial division over GF(2),
`CrcAugmented` relates it to plain division, `CrcEngine`, `CrcTable` and `CrcDriver` are the loops and tables, and
`CrcComputers` the two classes and two free functions. The table-driven reflected form is right exactly at widths 1
to 7, 8, 16, 32 and 64; at other widths every start has a message that shows the failure. The documentation of `augmented_crc`
allows every positive width; its code shifts by `Order - CHAR_BIT` and so is defined from 8 bits on, as the table
class it uses says.

**The JSON printer and parser** (`json.cpp`). `JsonPrint` and `JsonParser` are the functions as code; `JsonRead` is
the parser as functions on text and bracket stack, with a third outcome for what the original leaves undefined
(reading the top of an empty stack). An exception of `substr` is an outcome of its own.
`JsonText` has JSON texts as trees (white space, spellings of strings and numbers) and what each is taken for;
`JsonTextNest`, `JsonTextRead` and `JsonTextLoops` prove that the parser takes every one of them for that, and
`JsonGrammar` that this covers all JSON texts but those with a quote after an odd run of three or more backslashes,
at which the search for a bracket's end errs. `JsonBrackets` and `JsonQuotes` compare that search with what JSON text
means by strings, `JsonSpelling` does the same for escapes, `JsonNumbers` says what numbers and words are read as,
`JsonObject` and `JsonTextObject` what an object holds in the end, `JsonFailures` and `JsonStack` say where reading throws or
is undefined. The printer escapes nothing, the parser trims strings, drops nulls in arrays, gives up an array in which
it cuts a string at a comma or bracket, and gives up an object with an empty key or with white space for members:
the round trip is therefore stated as reading back a normal form (`JsonRoundTrip`, `JsonReadBack`), and as exact if
and only if the document is its own normal form.

**The version order of strings** (`dirent.h`). C strings are sequences of bytes 1 to 255. The order properties are
proved by an embedding: each string has one key, and the comparison is the lexicographic order of the keys.
`VersionLaws` says what is returned in terms of bytes and of decimal numbers.

**The message publisher and the event object** (`mmRabbitmq.cpp`, `mmRabbitmq.h`, `shareMemory.cpp`). Both are state
machines over atomic steps, and a run is any sequence of enabled steps: any number of threads, any interleaving, any
library call failing, spurious wake-ups. `PublisherThread` and `EventObject` are the code, each stretch of which is
proved to be a run of the machine. The map of declared exchanges outlives reconnects, so "declared" means declared on
some earlier or the current connection; `PublisherDeclares` says on which, and shows a run in which it is not the
current one.

**The daily balance and the body parameters** (`main.cpp`). The clock is local time that advances evenly, the date
comes from a calendar with leap years, and the database's answers are inputs. The flattener works on the same JSON
values as the parser.

The C library where the parser and printer call it (`strtod`, `%f`, the byte of two hexadecimal digits, LONG_MAX), the
outcome of every broker, mutex, semaphore and condition-variable call, the clock and the database are parameters or
free choices.

## Model

| member | source | states |
|---|---|---|
| `CrcEngine.CrcModuloWordUpdate` | inc/boost/crc.hpp:548-576 | The loop over a reflected or unreflected word leaves the register that dividing the word's bits one by one in reading order leaves, spare register bits included. |
| `CrcEngine.AugmentedCrcModuloWordUpdate` | inc/boost/crc.hpp:667-692 | The same for plain division, where each bit enters the register at the bottom. |
| `CrcEngine.WordRunLow` | inc/boost/crc.hpp:548-576 | The significant bits after any message depend only on the significant bits before it: the unregulated bits above them never leak down. |
| `CrcEngine.AugWordRunLow` | inc/boost/crc.hpp:667-692 | The same for plain division. |
| `CrcEngine.RegisterWidth` | inc/boost/crc.hpp:1027-1028 | The register is the least of the built-in widths 8, 16, 32 and 64 that holds the bits. |
| `CrcEngine.MessageBit` | inc/boost/crc.hpp:1791-1800 | Bit i of a message is bit i mod 8 of byte i / 8, counted from the lowest bit up if input is reflected and from the highest down if not. |
| `CrcEngine.ReflectUnsigned` | inc/boost/crc.hpp:383-397 | The two closing masks reverse exactly the low `wordLength` bits and leave the others alone. |
| `Bits.RevTwice` | inc/boost/crc.hpp:383-397 | Reversal is its own inverse. |
| `CrcEngine.MakeByteReflectionTable` | inc/boost/crc.hpp:408-418 | Entry i of the table is the mirror image of byte i, for all 256. |
| `CrcEngine.ReflectByte` | inc/boost/crc.hpp:435-441 | A byte is looked up as its mirror image. |
| `CrcEngine.ReflectSubByte` | inc/boost/crc.hpp:455-456 | The low bits of a byte reversed, the bits above them zero. |
| `CrcEngine.ReflectQ` | inc/boost/crc.hpp:826-828 | The reflector of the register's width class: reverses the significant bits or does nothing. |
| `CrcSpec.RunConcat` | inc/boost/crc.hpp:1841-1873 | Dividing a then b is dividing a + b. |
| `CrcSpec.RunLinear` | inc/boost/crc.hpp:553-575 | Whole runs are linear over XOR in the register and the message together. |
| `CrcEngine.WordRunLinear` | inc/boost/crc.hpp:553-575 | The same on the whole register, unregulated bits included. |
| `CrcSpec.RunPlaced` | inc/boost/crc.hpp:553-575 | Up to n message bits may be added to the top of the register first and zeros processed in their place. |
| `CrcSpec.ZeroRunKeepsNonZero` | inc/boost/crc.hpp:553-575 | With an odd divisor, processing zeros never turns a non-zero register into zero. |
| `CrcSpec.BurstChangesRemainder` | inc/boost/crc.hpp:553-575 | With an odd divisor, two messages of equal length that differ within one window of at most n bits leave different registers, whatever the start. |
| `CrcSpec.EvenDivisorMissesBurst` | inc/boost/crc.hpp:553-575 | With an even divisor there are two n-bit messages that differ and leave the same register. |
| `CrcSpec.BurstGuarantee` | inc/boost/crc.hpp:553-575 | The burst guarantee holds if and only if the truncated polynomial is odd. |
| `CrcPoly.StepDivides` | inc/boost/crc.hpp:1738-1744 | One step subtracts the quotient bit times G(x) from r(x)·x + b·x^n. |
| `CrcPoly.RunDivides` | inc/boost/crc.hpp:1738-1778 | For every message: init(x)·x^len(M) + M(x)·x^n = Q(x)·G(x) + register(x), over GF(2). |
| `CrcPoly.RemaindersAgree` | inc/boost/crc.hpp:1738-1778 | Such a decomposition determines the remainder: two of them with remainders below degree n have the same one. |
| `CrcPoly.RegisterIsRemainder` | inc/boost/crc.hpp:1738-1778 | A word is the remainder of the dividend modulo G(x) if and only if it is the register after the message. |
| `CrcPoly.ZeroStartDividend` | inc/boost/crc.hpp:1738-1778 | From a zero register the dividend is M(x)·x^n. |
| `CrcTable.MakePartialXorProductsTable` | inc/boost/crc.hpp:966-985 | Every entry of the generated table is the remainder of its index, at the reflected slot and reflected when asked. |
| `CrcTable.PartialXorProduct` | inc/boost/crc.hpp:972-984 | The loop body: one dividend's remainder is the entry of the one index that stands for it. |
| `CrcTable.ByteSplits` | inc/boost/crc.hpp:1148-1157 | Eight message bits act as a shift by eight plus the table entry of the leading byte. |
| `CrcTable.DirectByteLow` | inc/boost/crc.hpp:1148-1157 | One direct table step performs the eight bit-serial steps on the significant bits. |
| `CrcTable.AugDirectByteLow` | inc/boost/crc.hpp:1115-1127 | One plain-division table step performs eight plain steps on the significant bits. |
| `CrcTable.ReflectedByteMirrors` | inc/boost/crc.hpp:1241-1251 | In a register with no spare bits the reflected step is the mirror image of the direct one, and so of eight bit-serial steps. |
| `CrcDriver.ByteTableCrcUpdate` | inc/boost/crc.hpp:1141-1159 | The direct loop over a buffer with its generated table is the iterated table step (the reflected one at lines 1234-1253 likewise). |
| `CrcDriver.AugmentedByteTableUpdate` | inc/boost/crc.hpp:1110-1128 | The plain-division loop over a buffer is the iterated plain table step. |
| `CrcDriver.SubByteCrcUpdate` | inc/boost/crc.hpp:1349-1362 | Below eight bits the loop feeds whole bytes bit by bit; the reflected form (lines 1436-1451) reflects the register on entry and exit. |
| `CrcDriver.CrcUpdate` | inc/boost/crc.hpp:1496-1501 | The driver picks the table loop from eight bits on and the byte-feeding loop below. |
| `CrcDriver.DirectTableRunLow` | inc/boost/crc.hpp:1141-1159 | Over any buffer the direct table loop and bit-serial division agree on the significant bits, at every width from eight. |
| `CrcDriver.ReflectedTableRunMirrors` | inc/boost/crc.hpp:1234-1253 | Over any buffer the reflected table loop is the mirror image of bit-serial division of the reflected bytes, in a register with no spare bits. |
| `CrcDriver.AugTableRunLow` | inc/boost/crc.hpp:1110-1128 | Over any buffer the plain-division table loop agrees with plain bit-serial division. |
| `CrcDriver.DriverRefinesBitSerial` | inc/boost/crc.hpp:2092-2100 | Byte-wise and bit-wise processing agree on every buffer at every faithful width: any width unreflected; below 8, and 8, 16, 32 and 64, reflected. |
| `CrcDriver.FaithfulIsFull` | inc/boost/crc.hpp:1241-1251 | Those are exactly the widths at which the reflected byte loop has no spare register bits. |
| `CrcDriver.WideReflectedFails` | inc/boost/crc.hpp:1246-1249 | At every other reflected width a concrete two-byte buffer gives a wrong remainder: the right shift pulls an unregulated bit down. |
| `CrcDriver.TableRunLinear` | inc/boost/crc.hpp:1239-1252 | The reflected loop is linear over XOR in the register and the buffer, spare register bits included. |
| `CrcDriver.WideReflectedFailsFrom` | inc/boost/crc.hpp:1246-1249 | So from every register there is a two-byte buffer that goes wrong. |
| `CrcDriver.DriverAgreesExactlyWhenFaithful` | inc/boost/crc.hpp:1234-1253 | From every register, whatever it holds: byte-wise processing is right on all buffers if and only if the width is faithful. |
| `CrcComputers.CrcBasic.ProcessBit` | inc/boost/crc.hpp:1735-1744 | One bit is one step of the division on the significant bits. |
| `CrcComputers.CrcBasic.ProcessBits` | inc/boost/crc.hpp:1761-1778 | The low bits of a byte are divided from the highest down. |
| `CrcComputers.CrcBasic.ProcessByte` | inc/boost/crc.hpp:1791-1800 | A byte is divided in reflected or natural order. |
| `CrcComputers.CrcBasic.ProcessBytes` | inc/boost/crc.hpp:1861-1873 | A buffer is divided byte by byte. |
| `CrcComputers.CrcBasic.GetInterimRemainder` | inc/boost/crc.hpp:1672-1680 | The interim remainder is the significant bits, the spare ones zero. |
| `CrcComputers.CrcBasic.Reset` | inc/boost/crc.hpp:1718-1726 | A reset returns to the initial remainder. |
| `CrcComputers.CrcBasic.Checksum` | inc/boost/crc.hpp:1888-1897 | Bit i below Bits is bit i of the remainder, or bit Bits - 1 - i if the output is reflected, XOR bit i of the mask; the bits above are zero. |
| `CrcComputers.CrcOptimal.constructor` | inc/boost/crc.hpp:1922-1932 | The initial remainder is kept reflected when input is, so the interim remainder reads back as given. |
| `CrcComputers.CrcOptimal.GetInterimRemainder` | inc/boost/crc.hpp:2000-2012 | The register is reflected back and masked. |
| `CrcComputers.CrcOptimal.Reset` | inc/boost/crc.hpp:2028-2039 | After a reset the interim remainder is the one given. |
| `CrcComputers.CrcOptimal.ProcessBytes` | inc/boost/crc.hpp:2087-2100 | The table-driven class computes the bit-serial remainder at every faithful width. |
| `CrcComputers.CrcOptimal.ProcessByte` | inc/boost/crc.hpp:2047-2058 | The same for one byte. |
| `CrcComputers.CrcOptimal.Checksum` | inc/boost/crc.hpp:2102-2114 | The same, of the remainder the register stands for: the output reflector undoes or applies exactly the reflection asked for. |
| `CrcComputers.ReflectedOutput` | inc/boost/crc.hpp:1888-1897 | Before the mask, reflecting the output gives the mirror image of not reflecting it. |
| `CrcComputers.Crc` | inc/boost/crc.hpp:2216-2230 | The free function returns the bit-serial class's checksum, for all four reflection settings, unreflected at every width, reflected below 8 and at 8, 16, 32 and 64; at the others the output processing of what the driver leaves. |
| `CrcComputers.CrcRightExactlyWhenFaithful` | inc/boost/crc.hpp:2216-2230 | For every initial remainder, output mask and output reflection: the table-driven checksum is the bit-serial one on all buffers if and only if the width is faithful. |
| `CrcComputers.CrcBitSerial` | inc/boost/crc.hpp:1861-1897 | The bit-serial class returns it at every width. |
| `CrcComputers.AugmentedCrc` | inc/boost/crc.hpp:2278-2294 | The plain-division function returns the plain remainder of the buffer. |
| `CrcComputers.ChecksumIsRemainder` | inc/boost/crc.hpp:1880-1897 | The checksum stands for exactly one polynomial: the remainder of the buffer's dividend modulo G(x). |
| `CrcComputers.ChecksumInjective` | inc/boost/crc.hpp:1888-1897 | Different remainders have different checksums. |
| `CrcComputers.ChecksumDetectsBurst` | inc/boost/crc.hpp:1888-1897 | With an odd polynomial, buffers that differ by a burst of at most Bits bits in processing order have different checksums. |
| `CrcComputers.CrcInPieces` | inc/boost/crc.hpp:2041-2100 | A buffer may be processed in any number of pieces. |
| `CrcComputers.BigEndianMessage` | inc/boost/crc.hpp:2272-2276 | The big-endian bytes of a checksum are read highest bit first. |
| `CrcComputers.AugmentedBuffer` | inc/boost/crc.hpp:2267-2279 | When 8 divides Bits: appending Bits/8 zero bytes gives the unaugmented checksum, and appending c in big-endian order gives zero if and only if c is that checksum. |
| `CrcAugmented.FlushRun` | inc/boost/crc.hpp:667-692 | Feeding a message at the bottom and flushing n zeros equals comparing it at the top of the flushed register. |
| `CrcAugmented.AugmentedByZeros` | inc/boost/crc.hpp:2267-2271 | Plain division of a message followed by n zero bits is unaugmented division, for any start. |
| `CrcAugmented.AugmentedByChecksum` | inc/boost/crc.hpp:2272-2276 | Plain division of a message followed by n bits leaves zero if and only if those bits are its remainder. |
| `VersionOrder.StrVersCmp` | dirent.h:745-797 | The loops over a, b, i, j, k1, k2 compute the comparison that the order lemmas speak of. |
| `VersionOrder.VerCmpIsKeyOrder` | dirent.h:745-797 | The comparison is the lexicographic order of one key per string: ranks that put a number's length before its digits and digits after leading zeros below everything. |
| `VersionOrder.ZeroOnlyOnEqual` | dirent.h:749-756 | Zero exactly on equal strings. |
| `VersionOrder.Antisymmetric` | dirent.h:745-797 | Swapping the arguments flips the sign. |
| `VersionOrder.Transitive` | dirent.h:745-797 | Transitive, strictly so when either step is strict, across the fractional, numeric and alphabetical modes. |
| `VersionOrder.NumbersOrderStrings` | dirent.h:757-796 | After a common prefix that does not end in a digit, two maximal digit runs without leading zero that denote different numbers decide the sign, whatever follows. |
| `VersionLaws.DecimalsOrder` | dirent.h:757-796 | Texts that differ in a decimal number, after a common text that does not end in one of the bytes 48 to 57 and whatever follows that does not start with one, are ordered as the numbers are, zero included. |
| `VersionLaws.DifferenceDecides` | dirent.h:757-796 | The value returned, from the bytes alone: after nothing but zeros, -1 or 1 if one byte is a digit and the other is not, otherwise their difference; in a number with a leading zero and other digits, and outside numbers, their difference. |
| `VersionLaws.NumbersDecide` | dirent.h:778-796 | Inside two numbers without leading zero: -1 or 1 by their lengths, and at equal lengths the difference of the first bytes that differ. |
| `VersionOrder.KeysDecide` | dirent.h:757-796 | From any position up to the first difference the keys decide as the comparison does. |
| `VersionOrder.LengthsDecide` | dirent.h:778-793 | Two numbers of different lengths are ordered by length before any digit is compared. |
| `VersionOrder.DifferenceInZeros` | dirent.h:763-777 | In the fractional mode the keys decide as the comparison does. |
| `VersionOrder.DifferenceInNumber` | dirent.h:778-796 | Inside numbers of equal length they do. |
| `VersionOrder.DifferenceInText` | dirent.h:757-796 | Outside numbers they do. |
| `JsonValue.TrimCutsSpace` | json.cpp:27-38 | Trimming cuts off only white space, before and after. |
| `JsonValue.DecimalRead` | json.cpp:517 | `strtol` reads back what `%d` printed, for every integer. |
| `JsonValue.PutAtEnd` | json.cpp:1043 | A key above all present ones goes to the end of the map. |
| `JsonValue.IsSpace` | json.cpp:27-38 | White space is exactly the characters 9 to 13 and 32. |
| `JsonObject.KeyOrder` | json.cpp:1043 | Keys are ordered by their first difference, a key before its own extensions. |
| `JsonObject.PutIsAssignment` | json.cpp:1043 | Assigning to a key of an object keeps the keys increasing, makes the value the one assigned, and leaves every other member as it was. |
| `JsonParser.GetQuotePos` | json.cpp:42-60 | The loop finds exactly the first quote with an even number of backslashes directly before it, counted from where it starts, or that there is none. |
| `JsonParser.GetEndOfArrayOrObj` | json.cpp:638-698 | The loop returns the index, and leaves the bracket stack, of the scan that the bracket lemmas speak of. |
| `JsonBrackets.EndOfBracket` | json.cpp:638-698 | With the opening bracket on top of the stack the scan stops at its match, everything between balanced outside strings and exactly that frame popped; or at the end of the text with the frames still open on top; or at a bracket of the wrong kind. Strings end at quotes after an even run of backslashes, on every text without a quote after an odd run of three or more; on the others, at the quotes the scan itself counts. |
| `JsonBrackets.EndIsTheMatch` | json.cpp:638-698 | It reports index i with the frames below untouched if and only if the text up to i is balanced and i closes the first bracket, under the same reading of quotes, judged up to i. |
| `JsonRead.TogglesExactly` | json.cpp:646-657 | The look at two characters counts a quote if and only if an even number of backslashes stands before it, or three or more: it is wrong exactly after an odd run of three or more. |
| `JsonBrackets.SameNest` | json.cpp:646-657 | Without such quotes the scan's nesting is the nesting JSON text means. |
| `JsonQuotes.QuoteDecides` | json.cpp:638-698 | For a text that ends in a quote, all earlier ones counted rightly: the scan finds the right end on every completion without backslashes if and only if the quote does not follow an odd run of three or more backslashes. |
| `JsonQuotes.MisjudgedQuoteMisleads` | json.cpp:638-698 | Otherwise the brackets that close what is open make a completion on which it is wrong. |
| `JsonFailures.EscapedIsWellFormed` | json.cpp:646-657 | A valid array of one string (backslash, quote, bracket, escaped): the string ends at 7 and the array at 8. |
| `JsonFailures.EscapedScan` | json.cpp:646-657 | The scan ends it at 6, inside the string. |
| `JsonFailures.EscapedArrayLost` | json.cpp:751-765 | So the value is read as null and the end of its text is left over. |
| `JsonBrackets.ScanFollowsNest` | json.cpp:638-698 | While nothing closes the frames below, the scan carries exactly the nesting on top of them. |
| `JsonParser.UnescapeJSONString` | json.cpp:700-739 | For every string body spelled in characters, short escapes and four-digit codes, the loop gives the characters spelled, trimmed, a code standing for the byte of its last two digits; on other texts it is the unescaping function, exception included. |
| `JsonSpelling.UnescapeInvertsEscape` | json.cpp:700-739 | Unescaping undoes standard escaping of any text, up to the white space at its ends. |
| `JsonSpelling.ShortEscapes` | json.cpp:709-722 | The eight short escapes: quote, backslash and slash for themselves, b, t, n, f and r for the characters 8, 9, 10, 12 and 13; another letter stands for nothing. |
| `JsonSpelling.ReadsSpelledString` | json.cpp:782-794 | A string in any proper spelling, between quotes, is read as the characters it spells, trimmed, and what follows is left. |
| `JsonSpelling.UnescapeThrows` | json.cpp:700-739 | Unescaping throws if and only if the text is a sequence of plain characters, backslashes with a character other than u after them, and codes of four characters, and then a backslash, u and fewer than two characters more. It never reads the top of a stack. |
| `JsonSpelling.UnescapeUndoes` | json.cpp:700-739 | On such a sequence without the cut-off code it gives the characters meant, trimmed. |
| `JsonSpelling.UnescapeCutShort` | json.cpp:700-739 | A code cut off after its second or third character is the byte of what is left of its last two, and a backslash at the very end is itself. |
| `JsonParser.CollectPrimitive` | json.cpp:797-877 | The character loop over a number, boolean or null: the text collected, the flags, and the stack it leaves. |
| `JsonRead.ScanPrimitive` | json.cpp:797-877 | What is collected ends at a comma or at the end of the text and holds no comma and no opening bracket. |
| `JsonNumbers.NumberLaw` | json.cpp:880-940 | A number in a text: with a fraction or an exponent, what `strtod` makes of it, or an error; without, the integer its sign and digits denote if that fits in 32 bits, an error beyond that up to the limits of long, and what `strtod` makes of it beyond those. |
| `JsonNumbers.IntegerValue` | json.cpp:905-940 | The same for any text of an optional sign and digits. |
| `JsonNumbers.FloatingValue` | json.cpp:884-899 | Any text of digits, points, exponent marks and signs that has a point or a mark is what `strtod` makes of the whole of it. |
| `JsonNumbers.NoInteger` | json.cpp:905-917 | Any other text of digits and signs is an error. |
| `JsonNumbers.ReadsNumeric` | json.cpp:797-877 | Such a text is an error as a whole if and only if a point has no digit before it, or an exponent mark no digit or another mark, or its value is one. |
| `JsonNumbers.ReadsWord` | json.cpp:797-903 | true, false and null are read as such in capitals or not. |
| `JsonNumbers.WordsAnyCase` | json.cpp:880-903 | And nothing else is, up to the first zero byte; null not after a point or an exponent mark. |
| `JsonNumbers.ZeroByteEnds` | json.cpp:880-940 | Whatever follows the first zero byte is ignored, and a text that starts with one is the integer zero. |
| `JsonFailures.ClosersTakeFrames` | json.cpp:838-857 | Closing brackets inside a number or a word take the frames they close off the stack, whoever put them there. |
| `JsonFailures.WrongCloserFails` | json.cpp:838-857 | One that closes nothing, or another kind of frame, is an error. |
| `JsonParser.DeserializeValue` | json.cpp:741-946 | The value reader: value, error flag, remaining text and bracket stack, errors and out-of-range cases included. |
| `JsonRead.DeserializeValue` | json.cpp:741-946 | Without an error the remaining text is never longer, and strictly shorter for text that starts with a bracket, so every pass of the loops makes progress and the mutual recursion ends on every input. |
| `JsonRead.BracketShrinks` | json.cpp:967-980 | Text that has a bracket before any comma always has something consumed by the value reader. |
| `JsonParser.DeserializeArray` | json.cpp:948-1010 | The array loop, which cuts elements at raw commas and closing brackets. |
| `JsonParser.DeserializeObj` | json.cpp:1012-1049 | The object loop. |
| `JsonParser.NextKey` | json.cpp:1027-1037 | The key stands between the first unescaped quote and the next, not empty, and the colon is the first one from there on; none is reported if and only if there is no such place. |
| `JsonParser.DeserializeInternal` | json.cpp:598-636 | Dispatch on the first character with the frame pushed and popped around the reader. |
| `JsonParser.Deserialize` | json.cpp:1051-1055 | Reading a document from an empty stack. |
| `JsonFailures.UnclosedIsNotRead` | json.cpp:751-781 | An array or object that nothing closes is never read: taking the text after it throws, unless its parts failed already. |
| `JsonFailures.WrongBracketFails` | json.cpp:751-781 | One in which a bracket outside strings closes another kind than the one last opened is an error. |
| `JsonFailures.ClosedIsReadIfItsTextIs` | json.cpp:751-781 | One that is closed is read if and only if its own text is. |
| `JsonFailures.StrayCloserIsUndefined` | json.cpp:598-628 | One text, a brace between quotes inside an array element, on which the top of the empty stack is read, whatever the C library does. |
| `JsonFailures.BareBracesAreUndefined` | json.cpp:1012-1037 | Another, without a bracket between quotes: braces before a key open no frame, and the value after the key closes them. |
| `JsonStack.BraceFreeIsDefined` | json.cpp:598-636 | On every text without an opening brace, well formed or not, the top of an empty stack is never read. |
| `JsonStack.ValueKeeps` | json.cpp:741-946 | Nor, on such text, does the value reader take off a frame that it did not put on, however it ends. |
| `JsonStack.ScanKeeps` | json.cpp:638-698 | The search for a bracket's end takes off no frame below the bracket's own, on any such text. |
| `JsonGrammar.ReadsJson` | json.cpp:598-1055 | Every JSON text (any white space between tokens, strings and keys in any proper spelling, numbers, booleans, null) without a quote after an odd run of three or more backslashes is read as what it is taken for, null if it is no array and no object: it never throws and never reads the top of an empty stack. |
| `JsonGrammar.SpelledTaken` | json.cpp:782-794 | In which a string is taken for the characters it spells, trimmed. |
| `JsonGrammar.SpelledBody` | json.cpp:42-60 | Every quote in a spelled string is escaped: exactly the misjudged ones keep the string from being found whole. |
| `JsonGrammar.LostTexts` | json.cpp:598-1055 | Among well-formed documents exactly these are read as null: an object empty but for white space or with an empty key or a number out of range of its own, and an array with a cut string or a number out of range of its own. |
| `JsonTextLoops.ReadsText` | json.cpp:598-1055 | The same as ReadsJson for all texts in whose strings no quote is taken for the end, escapes that JSON does not know included. |
| `JsonTextLoops.ReadTree` | json.cpp:741-946 | A value with white space around it, followed by nothing or by a comma, is read as what it is taken for; what follows is left, and the bracket stack is as before with one frame more for every object inside that is read as null. A number out of range is reported as an error. |
| `JsonTextRead.BodyEnds` | json.cpp:42-60 | The quote after a well-formed body is the one found. |
| `JsonTextRead.ReadScalar` | json.cpp:797-936 | A number, boolean or null is collected to the comma or the end, white space dropped, and converted. |
| `JsonTextRead.FindsEnd` | json.cpp:638-698 | The search finds the last character of an array or object, whatever follows it. |
| `JsonPrint.SerializeValue` | json.cpp:509-528 | The printed form of a value. |
| `JsonPrint.SerializeArray` | json.cpp:530-548 | Elements between brackets, separated by commas. |
| `JsonPrint.Serialize` | json.cpp:550-591 | Only objects and arrays are printed; anything else gives the empty string. |
| `JsonPrint.FloatInArray` | json.cpp:509-548 | A floating-point number in an array is printed by `%f`, between what is printed of the items before it and after it. |
| `JsonPrint.FloatInObject` | json.cpp:509-591 | And in an object after its key. |
| `JsonTextNest.NestTree` | json.cpp:638-698 | Every well-formed value is balanced wherever it stands in a text. |
| `JsonRoundTrip.TreePrints` | json.cpp:509-591 | What is printed is the text of the value's tree, without white space. |
| `JsonRoundTrip.TreeTaken` | json.cpp:741-1049 | Which is taken for the value's normal form. |
| `JsonRoundTrip.StringKept` | json.cpp:700-739 | A string survives unescaping and trimming if and only if it has no backslash and no white space at its ends. |
| `JsonRoundTrip.CleanIsNormal` | json.cpp:741-1049 | A value equals its normal form if and only if no string in it has a backslash or white space at its ends, no key is empty, and there is no null and no cut string in an array. |
| `JsonReadBack.ReadValue` | json.cpp:741-946 | A printed value followed by anything that may follow one is read as its normal form, the rest untouched and nothing below on the stack lost. |
| `JsonTextLoops.ReadItems` | json.cpp:948-1010 | The array loop over well-formed items collects what they are taken for, dropping null ones, or gives the array up at a string that it cuts or a number out of range. |
| `JsonTextLoops.ReadFields` | json.cpp:1012-1049 | The object loop over well-formed members puts each under its key as spelled, the last of equal keys winning, or gives the object up at an empty key or a number out of range. |
| `JsonTextObject.FieldsArePut` | json.cpp:1012-1049 | What the fields leave in an object: one member for each of their keys, in order, with the value of the last field of that key, and the other members as they were. |
| `JsonTextObject.ReadsObject` | json.cpp:1012-1055 | An object text is read as null or as an object with exactly its keys, in order, each with the value that its last field is taken for. |
| `JsonReadBack.ReadsNormalForm` | json.cpp:509-1055 | For every value without floating-point numbers in whose strings and keys no quote is taken for the end: reading its printed form gives its normal form (strings unescaped and trimmed, keys as they are; an array with a cut string and an object with an empty key turned null; nulls in arrays dropped), and null if it is no document. |
| `JsonReadBack.RoundTrip` | json.cpp:509-1055 | For all those values the round trip is exact if and only if the document has no string with a backslash or white space at its ends, no empty key, and no null and no cut string in an array. Backslashes in keys do no harm. |
| `JsonReadBack.LostDocuments` | json.cpp:948-1049 | A document is read as null if and only if a string among its own elements is cut (the first of the characters , ] [ { in it is a comma or closing bracket), or one of its own keys is empty. |
| `JsonReadBack.LostInside` | json.cpp:751-765 | An array with a cut string below a key turns that member into null and the document is kept. |
| `Publisher.ConnectionsStayed` | mmRabbitmq.cpp:227-390 | Every step keeps: the connected flag means a live handle, no handle is used or destroyed when dead, every publish follows a declare of its exchange, the retry interval is 5 plus 5 for each failed retry in a row, at most 60. |
| `Publisher.MessagesStayed` | mmRabbitmq.cpp:199-384 | Every step keeps the order and conservation of messages. |
| `Publisher.WakeUpStayed` | mmRabbitmq.cpp:203-263 | Every step keeps that a waiting consumer with listed messages can be woken. |
| `Publisher.RunsStayGood` | mmRabbitmq.cpp:199-391 | All three hold after any run from any state in which they hold. |
| `Publisher.AppendedArePushed` | mmRabbitmq.cpp:199-207 | The numbering of messages is the order in which `send` appended them in the run. |
| `Publisher.SentPublishedDeleted` | mmRabbitmq.cpp:199-384 | For every interleaving and failure: publications are strictly increasing in (message, command), so a subsequence of what was sent, each at most once; each message's are a prefix of its non-empty commands; each message taken over is deleted exactly once, in order; sent = deleted + held + listed. |
| `Publisher.ConnectionsNeverMisused` | mmRabbitmq.cpp:227-390 | From the start, for every run: no use or destruction of a dead handle, declare before publish, connected only with a live handle, the interval five more after each failed retry in a row from 5 up to 60. |
| `Publisher.HandlesAreLive` | mmRabbitmq.cpp:227-390 | At every step of every run the handle in hand is live, and whatever declares, publishes or hangs up has one. |
| `Publisher.MisuseIsSeen` | mmRabbitmq.cpp:86-128 | A use or destruction of a null or destroyed handle is recorded as misuse, and nothing else is. |
| `Publisher.SemaphoreBounded` | shareMemory.cpp:581-585 | In every run the semaphore stays within its maximum, and a post counts exactly when it is below. |
| `Publisher.WakeUpsNeverLost` | mmRabbitmq.cpp:203-263 | From the start, for every run and any number of senders, posts refused at the maximum included: at the wait with messages listed, the wait can succeed or some sender has still to post. |
| `Publisher.NothingDroppedWithoutFailure` | mmRabbitmq.cpp:282-383 | If the library reports no failure in the run, every deleted message that names an exchange had all its non-empty commands published. |
| `Publisher.SmoothStepLosesNothing` | mmRabbitmq.cpp:282-383 | Each step without a failure keeps that. |
| `Publisher.ConnectionsClosedAtExit` | mmRabbitmq.cpp:77-115 | At the exit the connections still open number exactly the attempts that overwrote a held handle, so none is left if and only if no attempt followed a channel that did not open. |
| `Publisher.HeartbeatGoesOut` | mmRabbitmq.cpp:266-277 | A heartbeat is the one command heartbeat.agent to the exchange sdn.agent.heartbeat: declared, published and deleted like a message, and counted as none. |
| `Publisher.StepLeavesBehind` | mmRabbitmq.cpp:241-259 | A step leaves one more connection behind exactly when it overwrites a handle. |
| `Publisher.OneMorePublication` | mmRabbitmq.cpp:345-374 | Order and prefixes survive one more publication whose predecessors are out. |
| `PublisherDeclares.DeclaredOnExactlyOne` | mmRabbitmq.cpp:316-352 | For every run: the exchange of every publication was declared on exactly one connection ever, by exactly one step, before the step that published; and the publication went out on that connection if and only if no step between the two made a connection. |
| `PublisherDeclares.ConnectionsCounted` | mmRabbitmq.cpp:77-128 | Connections are numbered in the order in which the steps of the run make them. |
| `PublisherDeclares.PublishedOnOpened` | mmRabbitmq.cpp:77-128 | For every run: every publication went out on a connection that an earlier step made with its channel open; never on one whose channel did not open. |
| `PublisherDeclares.StopEndsThread` | mmRabbitmq.cpp:235-240 | For every run: when the thread reads the flag after a wait, it leaves its loop if and only if it has been told to stop by then. |
| `PublisherDeclares.RunsDeclareOnce` | mmRabbitmq.cpp:316-352 | Any run keeps that, from any state in which it holds. |
| `PublisherDeclares.PublishedUndeclaredAfterReconnect` | mmRabbitmq.cpp:316-339 | There is a run in which a message goes out on a connection its exchange was not declared on, because the map outlives the connection. |
| `Publisher.RunsCompose` | mmRabbitmq.cpp:235-384 | Runs compose. |
| `PublisherThread.PublishThread.Send` | mmRabbitmq.cpp:199-207 | The code is the two steps append and post, and appends one copy at the end of the list. |
| `PublisherThread.PublishThread.PostSemaphore` | shareMemory.cpp:581-585 | A post adds one, or is refused at the maximum. |
| `PublisherThread.PublishThread.Stop` | mmRabbitmq.h:61-69 | The exit flag is cleared, then the semaphore posted. |
| `PublisherThread.PublishThread.Connect` | mmRabbitmq.cpp:77-128 | The attempt to connect ends in one of its four outcomes, with the handle overwritten or destroyed accordingly. |
| `PublisherThread.PublishThread.Begin` | mmRabbitmq.cpp:227-233 | The first attempt to connect is one step of the machine. |
| `PublisherThread.PublishThread.Hangup` | mmRabbitmq.cpp:328-333 | Channel closed, connection destroyed, handle and flag cleared. |
| `PublisherThread.PublishThread.Declare` | mmRabbitmq.cpp:286-339 | The first part of the loop body: the message given up, or its exchange declared once. |
| `PublisherThread.PublishThread.PublishCommand` | mmRabbitmq.cpp:347-373 | One pass over the commands: skip an empty one, publish, or hang up on failure. |
| `PublisherThread.PublishThread.PublishAll` | mmRabbitmq.cpp:345-378 | The loop over the commands and the deletion after it are a run of the machine. |
| `PublisherThread.PublishThread.DealWithOne` | mmRabbitmq.cpp:284-382 | The loop body is a run of the machine that deletes exactly one entry. |
| `PublisherThread.PublishThread.DealWithList` | mmRabbitmq.cpp:282-383 | The loop over the list is a run of the machine that ends at the wait with the list cleared. |
| `PublisherThread.PublishThread.Reconnect` | mmRabbitmq.cpp:241-259 | Reconnecting when due, with the interval's update, is one step of the machine. |
| `PublisherThread.PublishThread.Splice` | mmRabbitmq.cpp:261-280 | Taking over the shared list, with the heartbeat for an empty one. |
| `PublisherThread.PublishThread.Collect` | mmRabbitmq.cpp:261-280 | It is one step of the machine. |
| `PublisherThread.PublishThread.Pass` | mmRabbitmq.cpp:236-384 | The whole body of the thread's loop is a run of the machine, back to the wait or out of the loop as the flag says. |
| `PublisherThread.PublishThread.Exit` | mmRabbitmq.cpp:386-390 | After the loop no handle is held. |
| `Event.ExclusiveStayed` | shareMemory.cpp:316-345 | Only the owner of the mutex is inside any of the three functions, and a wait past its loop still sees the flag set. |
| `Event.AccountStayed` | shareMemory.cpp:316-455 | Every set stays accounted for: taken by one wait, standing, merged into a standing one, or reset. |
| `Event.ServiceStayed` | shareMemory.cpp:328-425 | Set events keep their sleepers served, unless a signal or broadcast fails. |
| `Event.StepMovesItsThread` | shareMemory.cpp:316-455 | A step moves its own thread, and a wake-up the sleepers it names; no other thread moves. |
| `Event.OnlyWakeUpsSignal` | shareMemory.cpp:334-337 | A wait counts as signalled only through a wake-up. |
| `Event.WakesWhom` | shareMemory.cpp:408-425 | A broadcast wakes exactly the sleepers, a signal any of them but not none. |
| `Event.UnlockLaw` | shareMemory.cpp:341-345 | An unlock that fails keeps the mutex and ends no successful wait. |
| `Event.RunsStayGood` | shareMemory.cpp:316-455 | All of it after any run. |
| `Event.SetsPayForWaits` | shareMemory.cpp:328-340 | For every interleaving, spurious wake-ups and failing calls included: on an auto-reset event successful waits plus the flag are at most sets plus the initial flag, with the difference accounted for exactly. |
| `Event.NoSleeperForgotten` | shareMemory.cpp:408-425 | For every run without a failed signal: no thread sleeps on a set manual event, and none on a set auto-reset event without a signalled waiter pending. |
| `Event.FlagCanBeTaken` | shareMemory.cpp:328-345 | That waiter's four steps lead to a wait that returns 0 and resets the flag. |
| `EventObject.EventObject.Set` | shareMemory.cpp:395-433 | `event_set` is a run of the machine, which ends with a return of 0 exactly when the code returns 0; then the flag is set, and no thread sleeps on a manual event. |
| `EventObject.EventObject.Reset` | shareMemory.cpp:435-455 | `event_reset` is such a run; when it returns 0 the flag is clear. |
| `EventObject.EventObject.Wait` | shareMemory.cpp:328-345 | `event_wait` from where it has the mutex is a run of the machine: asleep with the mutex released only if the flag is clear, and 0 only if the flag was set, which an auto-reset event then clears. |
| `DailyBalance.HumanRemainThread.Check` | main.cpp:3312-3336 | One pass of the thread's loop, the clock's text and the database's answers as inputs. |
| `Calendar.TextParts` | main.cpp:3312-3317 | Of the text %Y%m%d%H%M%S: 14 characters when the year has four digits, then characters 4 to 7 are month and day, and 8 to 9 are 04 exactly from 04:00:00 to 04:59:59. |
| `Calendar.MonthLengths` | main.cpp:3312-3317 | The months of the local calendar: 31 and 30 days, and February 29 in every fourth year but three in four centuries. |
| `Calendar.ConsecutiveDaysDiffer` | main.cpp:3317 | Two consecutive days never show the same month and day. |
| `DailyBalance.EachDayTriggersOnce` | main.cpp:3307-3338 | With polls at most 3600 seconds apart the days that trigger are exactly those whose 04:00 to 05:00 window was not over at the first poll and has begun by the last, each once and in order. |
| `DailyBalance.PollsDecide` | main.cpp:3310-3319 | With polls at any distance, in terms of the polls alone: a day triggers if and only if a poll falls in its window and the latest earlier day with a poll in its window, if there is one, does not show the same month and day. |
| `DailyBalance.DayTriggersExactly` | main.cpp:3310-3319 | A step towards it, in terms of the earlier triggers: the latest one before the day was not on the same month and day. The triggers are in order and no day triggers twice. |
| `DailyBalance.DayTriggersIfPolled` | main.cpp:3310-3319 | Within a year of polls, a day triggers if and only if a poll falls in its window. |
| `Calendar.SameMonthDayFarApart` | main.cpp:3317 | Two days that show the same month and day are at least 365 days apart, leap years included. |
| `DailyBalance.PollAdvances` | main.cpp:3312-3319 | One more poll keeps that. |
| `DailyBalance.LatePollMissesADay` | main.cpp:3337 | With polls 3601 seconds apart a day can be missed. |
| `DailyBalance.ListedOnceChargedOnce` | main.cpp:3324-3333 | Every row listed once is charged once if it can be read and written; no other row changes. |
| `DailyBalance.NoSecondChance` | main.cpp:3317-3322 | The date is marked before the listing: a trigger whose listing failed changes no balance and is not repeated that day. |
| `DailyBalance.BalancesFollowTriggers` | main.cpp:3307-3338 | Every trigger takes exactly one day off every balance. |
| `DailyBalance.BalanceAfterDays` | main.cpp:3307-3338 | After k windows begun since the start, with a database that answers and no renewals, a balance r >= 0 is max(0, r - 86400·k). |
| `BodyParams.Parameters.ParseBodyStr` | main.cpp:3375-3414 | The recursive loops leave the three maps as writing the leaves depth first, one after the other, leaves them. |
| `BodyParams.Parameters.ParseItems` | main.cpp:3401-3412 | The loop over an array looks only into its objects. |
| `BodyParams.LastWriteWins` | main.cpp:3381-3395 | What a map holds for a key is the last leaf of its type with that key. |
| `BodyParams.NeverWritten` | main.cpp:3381-3395 | A key without such a leaf keeps what the map held before. |
| `BodyParams.LeavesExactlyReached` | main.cpp:3377-3413 | The leaves are exactly the texts, integers and doubles reached through objects and through arrays whose elements are objects; an array directly inside an array is never entered. |

## Left out

- CrcComputers.AugmentedCrc: widths below 8 are excluded, because the code shifts by a negative amount there.
- CrcComputers.Crc: promises the checksum only at faithful widths, because at the others it is wrong on some messages.
- CrcDriver.DriverAgreesExactlyWhenFaithful: asks that the polynomial has no bits above n, as the template's parameters have.
- JsonReadBack.RoundTrip: values with floating-point numbers are excluded, because `%f` rounds; and, because the printer escapes nothing, those with a string or key in which a quote has other than one backslash before it or that ends in an odd number of backslashes, and those with a string that unescaping throws on.
- JsonBrackets.EndOfBracket: on texts with a quote after an odd run of three or more backslashes, strings are taken as the scan takes them, because it takes them wrongly there.
- JsonFailures.StrayCloserIsUndefined: two texts stand for two causes, with JsonFailures.BareBracesAreUndefined. JSON text without a quote after an odd run of three or more backslashes is never undefined (JsonGrammar.ReadsJson), nor is any text without an opening brace (JsonStack.BraceFreeIsDefined); which of the other texts are is left open.
- JsonGrammar.ReadsJson: is one-way, because a quote after an odd run of three or more backslashes may also do no harm; JsonQuotes.QuoteDecides says when one makes the search err.
- BodyParams.Parameters.ParseBodyStr: the copies of objects and arrays made by the original are not modelled, since values are immutable here.
- EventObject.EventObject.Wait: starts where the mutex is held; blocking for it is a step of the machine that is not enabled yet.
- PublisherThread.PublishThread.Pass: the loop around it, which need not end, is any sequence of waits and passes of the machine.
- DailyBalance.EachDayTriggersOnce: clock changes and daylight saving are not modelled, and years need four digits.
- HTTP handling, request routing, reply building and server start and stop: plumbing over libraries.
- MySQL, object storage, single sign-on, tokens, hashes and string helpers: the balance store is a map, the rest is not part of this model.
- The synthesis dispatch and receive threads and the session table: their guarantees rest on SQL that is not shown.
- Static initialisation of the CRC tables, which are rebuilt per call here, and the reflected plain-division update, which nothing calls.
- Numeric cross-type conversions of JSON values, and hexadecimal escapes beyond the byte they produce.
- A stack of bracket types is a sequence; a read of the top of an empty one is the undefined outcome.
- `std::map` is a sequence of members in key order, so its balancing is not modelled.
- C++ exceptions inside the publisher's loop, and the memory of messages beyond their deletion being counted once each.
- The list's mutex of the publisher is a semaphore in the original; a wait on it that a signal interrupts is not modelled.
- The consumer class of the message broker, timed waits on events, and shared-memory mappings.
- Reading and sorting directories: `scandir` and `qsort` only use the comparison.
- `isdigit` on a negative `char`: bytes are unsigned here.
