# rtlamr: a model of the receive chain

rtlamr receives the radio messages of utility meters. This project models the path from raw samples to an
accepted message and proves what the program relies on along that path:

- **Field and code** (`Gf2Poly`, `FieldTheory`, `GaloisField`, `ReedSolomon`, `R900Code`, `LinearSystem`,
  `R900Encoder`). Polynomials over GF(2) are natural numbers, as in the program. `NewField` is proved against the
  ring of residues; five consecutive roots give a code of distance six; the encoder's Gaussian elimination, which
  works in place, never meets a missing pivot.
- **CRC and byte-oriented packets** (`Crc`, `Acceptance`, `Scm`, `Idm`, `PacketLink`). The table-driven checksum
  equals the bit-serial register and the polynomial remainder; acceptance by residue means that each check field has
  exactly the right value; a packet sent anywhere in the stream becomes its message. The CCITT variant is the frame
  check sequence of section 2.2.7 of ITU-T X.25, computed MSB first.
- **Demodulator and search** (`Bits`, `Stream`, `Geometry`, `Demod`, `Decoder`). The specification filters the whole
  stream in one pass and looks at every offset; the class `Decoder` does it block by block over reused arrays.
- **R900** (`R900Filter`, `R900Message`, `R900Parser`, `R900Link`, `R900EndToEnd`). Matched filter, digits, symbols,
  acceptance, energy accounting, and the round trip from fields over the waveform back to fields.
- **Runs** (`Runs`, `FanIn`, `Receiver`, `Reception`). Set-up and any number of calls of the decoder; the parser
  goroutines as interleaved steps with the nested relay of R900BCD; the suppression of duplicates between blocks and
  the filter chain; and, across all of them, what is reported of a packet sent anywhere in the stream, field by field.

Code that changes state in the program is a method on arrays or a class here, proved against a specification
function; the lemmas are about those functions. `Result.Panic` stands for a panic or a fatal test failure. Ghost
parameters carry what the program knows only implicitly: the stream received so far, the modulus of a field, the
polynomial of a table.

Sample power is exact: the lookup entry ((127.5 - i) / 127.5)^2 is (255 - 2i)^2 / 65025, and all signal values are
integers in units of 1/65025, so every comparison the decoder makes is the same.

Where code and expectation differ, the model follows the code:

- `reducible` also answers true for the two polynomials of degree one, which do not split: its search range then
  contains the polynomial itself (`GaloisField.Reducible`, `GaloisField.ReducibleFailsAtDegreeOne`).
- `NewField` with generator 0 is stopped only by its self-check, not by the generator test
  (`GaloisField.ZeroGeneratorFails`).
- Acceptance by zero residue needs an odd CRC polynomial; with any even one, every message has a wrong check field
  that passes (`Crc.ZeroResidue`, `Crc.EvenPolynomialFails`). All polynomials in use are odd.
- The byte phase of the search loses matches for every symbol length that is not divisible by eight
  (`Decoder.PruneExact`). All lengths listed for the symbollength flag meet it.
- Before the stream begins `Quantized` holds zeros, not the decisions of a silent signal (which would be ones); the
  specification's decision buffer says the same.
- `Slice` compares an index with `>`, so an index equal to the block size would still be sliced; `Search` never
  returns one.
- When the number of packet symbols is not a multiple of eight, the last byte of a packet keeps old bits of the
  scratch buffer. `Decoder.SamplePacket` says which; no claim about the packet text uses that byte.

## Model

| member | source | states |
|---|---|---|
| GaloisField.CountBits | r900/gf/gf.go:60-66 | The number of significant digits: p lies between the two powers of two it names. |
| GaloisField.PolyDiv | r900/gf/gf.go:69-78 | Terminates for every non-zero divisor with the unique remainder: of smaller degree than q, and p is a multiple of q plus it. |
| Gf2Poly.DivisionUnique | r900/gf/gf.go:68-69 | Quotient and remainder of smaller degree are unique, however the division is carried out. |
| Gf2Poly.NBitCmul | r900/gf/gf.go:98-100 | Degrees add under carry-less multiplication, so the ring has no zero divisors: the comment's bound on factors. |
| GaloisField.MulMod | r900/gf/gf.go:81-94 | Shift-and-add product: carry-less multiplication reduced modulo the field polynomial. |
| GaloisField.Reducible | r900/gf/gf.go:97-108 | True exactly if p is a carry-less product of two polynomials of degree at least one, or has degree one. |
| GaloisField.ReducibleFailsAtDegreeOne | r900/gf/gf.go:96-108 | Both polynomials of degree one are called reducible although neither splits. |
| GaloisField.FullCycle | r900/gf/gf.go:31-40 | The powers of a generator are distinct and run through all non-zero elements (pigeonhole). |
| GaloisField.GroupOrder | r900/gf/gf.go:31-40 | A generator's power to the number of non-zero elements is one. |
| GaloisField.FillTables | r900/gf/gf.go:30-40 | The first loop records the powers of the generator in both tables, or stops at a power that returns to one too early. |
| GaloisField.CheckTables | r900/gf/gf.go:42-54 | The self-check passes exactly if the tables are inverse to each other. |
| GaloisField.FilledOutcome | r900/gf/gf.go:29-56 | The filled tables pass the self-check exactly if the generator is not zero, and then it is primitive. |
| GaloisField.FilledTablesPass | r900/gf/gf.go:29-56 | With a generator the filled tables are the field's tables and the self-check cannot fail. |
| GaloisField.ZeroGeneratorFails | r900/gf/gf.go:29-56 | With generator 0 the filled tables always fail the self-check. |
| GaloisField.NewField | r900/gf/gf.go:20-57 | Returns exactly if the polynomial is irreducible of the right degree and the generator is primitive, with the right tables, or for order 1 and polynomial 1. Panics otherwise. |
| GaloisField.MulAgrees | r900/gf/gf.go:143-148 | Table product equals carry-less multiplication modulo the polynomial for all operands, zero included. |
| GaloisField.InvAgrees | r900/gf/gf.go:135-140 | Table inverse is the inverse for carry-less multiplication modulo the polynomial. |
| GaloisField.ExpAgrees | r900/gf/gf.go:117-122 | Exp is the power of the generator for every exponent. |
| GaloisField.ExpLog | r900/gf/gf.go:115-140 | Log and Exp are inverse in both directions; a negative exponent gives 0, the logarithm of 0 is -1, the inverse of 0 is 0. |
| GaloisField.AddLaws | r900/gf/gf.go:110-113 | Addition is digit-wise modulo two: a group in which every element is its own negative. |
| GaloisField.FieldLaws | r900/gf/gf.go:111-148 | Table arithmetic is commutative, associative, distributive and has no zero divisors. |
| FieldTheory.NoZeroDivisors | r900/gf/gf.go:80-81 | Modulo an irreducible polynomial a product of non-zero residues is non-zero. |
| FieldTheory.PowerCycle | r900/gf/gf.go:117-122 | Powers of an element of finite order repeat with that period. |
| ReedSolomon.HornerStep | r900/gf/gf.go:164-167 | One round of Horner's rule appends a coefficient. |
| ReedSolomon.Horner | r900/gf/gf.go:163-169 | The inner loop evaluates the message polynomial at one power of the generator. |
| ReedSolomon.Syndrome | r900/gf/gf.go:152-172 | Panics exactly on a bad offset or parity count; otherwise entry j is the message's value at root offset + j. |
| ReedSolomon.SyndromeIsSum | r900/gf/gf.go:150-172 | The syndromes are consecutive power sums over the locators of the positions. |
| ReedSolomon.Independent | r900/gf/gf.go:150-172 | Over distinct locators, a vector of weight at most k whose first k power sums vanish is zero. |
| ReedSolomon.LightWordRejected | r900/gf/gf.go:150-172 | No non-zero word of weight at most k has k vanishing consecutive syndromes. |
| ReedSolomon.MinimumDistance | r900/gf/gf.go:150-172 | Two different words with k equal consecutive syndromes differ in more than k positions. |
| R900Code.R900FieldExists | r900/r900.go:76-77 | Polynomial 37 is irreducible and 2 generates all 31 non-zero elements. |
| R900Code.AcceptedMeans | r900/r900.go:237-243 | A word passes exactly if the polynomial with its data from x^30 down to x^15 and its parity from x^4 down to 1 vanishes at the roots 2^29 to 2^33. |
| R900Code.Distance6 | r900/r900.go:237-243 | Two different accepted 21-symbol words differ in at least six symbols, and in exactly six if their data differ in one. |
| R900Code.ParityUnique | r900/r900_test.go:13-16 | At most one parity completes given data to an accepted word. |
| LinearSystem.SwapKeeps | r900/r900_test.go:47 | Swapping rows keeps the solutions. |
| LinearSystem.ScaleKeeps | r900/r900_test.go:49-52 | Scaling a row by a non-zero element keeps the solutions. |
| LinearSystem.CombineKeeps | r900/r900_test.go:53-61 | Adding a multiple of one row to another keeps the solutions. |
| LinearSystem.NoPivotSolves | r900/r900_test.go:37-46 | A column without a pivot gives the system a solution with component one in that column and zero after it. |
| LinearSystem.ReducedSolves | r900/r900_test.go:64-67 | A completely reduced system is solved by its last column. |
| R900Encoder.SolutionIsParity | r900/r900_test.go:26-34 | The solutions of the system with last component one are exactly the parities that make the word pass. |
| R900Encoder.NoFreeColumn | r900/r900_test.go:26-34 | The homogeneous system has only the zero solution. |
| R900Encoder.FillSystem | r900/r900_test.go:28-34 | The matrix holds the powers of the five roots and the data's syndromes. |
| R900Encoder.FindPivot | r900/r900_test.go:37-43 | The first row from the column on with a non-zero entry, if there is one. |
| R900Encoder.PlacePivot | r900/r900_test.go:47-52 | Swap and scale bring a one to the diagonal and keep solutions and finished columns. |
| R900Encoder.ClearColumn | r900/r900_test.go:53-62 | The column becomes a unit column; solutions and finished columns are kept. |
| R900Encoder.ReduceColumn | r900/r900_test.go:36-62 | One round of the elimination: either no pivot and nothing changed, or one more unit column and the same solutions. |
| R900Encoder.Eliminate | r900/r900_test.go:36-62 | The elimination succeeds on every system of the code and leaves it completely reduced with the same solutions. |
| R900Encoder.PivotExists | r900/r900_test.go:44-46 | A pivot exists in every column, for all data. |
| R900Encoder.EncodeParity | r900/r900_test.go:16-78 | Never fails for any 16 symbols, and the parity completes them to an accepted word. |
| Crc.TableEntry | crc/crc.go:36-44 | Eight doublings of an index in the upper byte give its value times x^16 reduced. |
| Crc.NewTable | crc/crc.go:34-47 | Every entry t is t times x^16 modulo x^16 + poly. |
| Crc.TableStep | crc/crc.go:52 | Folding a byte through the table is adding it at the top, multiplying by x^8 and reducing. |
| Crc.Checksum | crc/crc.go:49-55 | The checksum is the remainder of init*x^(8 len) + data*x^16 modulo x^16 + poly. |
| Crc.CrcConcat | crc/crc.go:49-55 | The checksum of a concatenation continues from the checksum of its first part. |
| Crc.SerialIsRemainder | crc/crc.go:34-55 | The bit-serial feedback register computes the same remainder for every bit string. |
| Crc.ChecksumIsSerial | crc/crc.go:49-55 | The table-driven checksum equals the bit-serial register on all byte strings. |
| Crc.CrcLinear | crc/crc.go:49-55 | The checksum is linear over exclusive or, in register and message together. |
| Crc.BurstDetected | crc/crc.go:49-55 | For odd poly, an error burst within 16 consecutive bits always changes the checksum. |
| Crc.ZeroResidue | scm/scm.go:76 | For odd poly the residue of message and check field is zero exactly if the field is the checksum. |
| Crc.EvenPolynomialFails | crc/crc.go:14-22 | For every even poly and every message a wrong check field has residue zero. |
| Crc.CcittResidue | idm/idm.go:48 | The all-ones register leaves residue 0x1D0F. |
| Crc.ComplementResidue | idm/idm.go:76-87 | For CCITT the residue is 0x1D0F exactly if the check field is the complement of the checksum. |
| Acceptance.PassedMembers | scm/scm.go:62-88 | Exactly the candidate packets that pass the checks are announced. |
| Acceptance.PassedDistinct | scm/scm.go:69-73 | No packet is announced twice in a block. |
| Acceptance.PassedInOrder | scm/scm.go:62-91 | Packets are announced in the order of their first appearance in the block. |
| Acceptance.BytesSpelled | idm/idm.go:123-154 | A byte field has the value v exactly if it is v written big-endian. |
| Acceptance.BigEndianText | idm/idm.go:123-154 | The big-endian value of bytes is the value of their binary digits. |
| Scm.AcceptedMeans | scm/scm.go:75-85 | A packet passes exactly if bytes 10 and 11 are the BCH checksum of bytes 2 to 9 and the meter id is not zero; that checksum is the one reported. |
| Scm.FieldPlaces | scm/scm.go:103-120 | The parser reads a message exactly from the bits that spell each field in binary at its place, the meter id in two parts. |
| Scm.ParsedSpelled | scm/scm.go:103-120 | What is read is always in range, so every packet spells the message read from it. |
| Scm.LayoutRoundTrip | scm/scm.go:103-120 | For all fields, sync words and spare bits, the packet that lays the fields out in order is read back to them. |
| Scm.SpelledAccepted | scm/scm.go:75-85 | A packet that spells a message passes exactly if the message's checksum is that of bytes 2 to 9 and its meter id is not zero. |
| Scm.MessageDeterminesPacket | scm/scm.go:103-119 | The fields determine the packet up to the sync bits and one unused bit: no bit is read twice or dropped. |
| Scm.Examine | scm/scm.go:75-87 | One candidate yields its message exactly if it is acceptable. |
| Scm.Parser.Parse | scm/scm.go:61-91 | Announces, in order, the message of every distinct acceptable packet, whatever the reused buffer held. |
| Idm.NewIDM | idm/idm.go:121-152 | The loop with its running offset reads the 47 nine-bit fields; all fields come from their places. |
| Idm.AcceptedMeans | idm/idm.go:76-92 | A packet passes exactly if both check fields are complements of the checksums they cover, the second over the non-adjacent serial number, and the serial number is not zero. |
| Idm.FieldPlaces | idm/idm.go:123-154 | The parser reads a message exactly from the packets that spell each field at its place, numbers big-endian, 47 nine-bit intervals from bit 264 on. |
| Idm.ParsedSpelled | idm/idm.go:123-154 | What is read is always in range, so every packet spells the message read from it. |
| Idm.LayoutRoundTrip | idm/idm.go:123-154 | For all fields, and any unused bits, the packet that lays the fields out in order is read back to them. |
| Idm.SpelledAccepted | idm/idm.go:75-93 | A packet that spells a message passes exactly if its two check fields are the complements of the checksums and its serial number is not zero. |
| Idm.MessageDeterminesPacket | idm/idm.go:121-152 | The fields determine the packet up to the upper half of byte 8 and one spare bit. |
| Idm.Examine | idm/idm.go:76-94 | One candidate yields its message exactly if it is acceptable. |
| Idm.Parser.Parse | idm/idm.go:62-98 | Announces, in order, the message of every distinct acceptable packet, whatever the reused buffer held. |
| Bits.ValueOfBits | protocol/parse.go:64-66 | Printing a value in binary and reading it back gives the value. |
| Bits.BitsOfValue | protocol/parse.go:64-66 | Reading a bit string and printing it gives the bit string. |
| Bits.ByteBits | protocol/parse.go:64-66 | Each byte's eight digits stand at its place in the text. |
| Decoder.NewData | protocol/parse.go:61-69 | The packet's bytes are copied and its text is every byte as eight binary digits. |
| Geometry.LeastPower | protocol/decode.go:377-379 | NextPowerOf2 is the least power of two not below its argument. |
| Geometry.AllocatedIsSound | protocol/decode.go:131-160 | A symbol length divisible by eight makes all derived lengths fit together; the block is the least power of two that holds a preamble. |
| Geometry.RegisteredSettings | protocol/decode.go:104-109 | Whatever parsers are registered: the centre frequency is the last one's, every other setting the largest. |
| Geometry.AllocatedLengths | protocol/decode.go:131-139 | Allocation keeps the settings; sample rate and lengths follow from them, a block is the least power of two that holds a preamble and takes two bytes per sample. |
| Geometry.ShippedSettings | protocol/decode.go:104-109 | For any shipped parsers in any order each setting is the maximum over them. |
| Decoder.Decoder.RegisterProtocol | protocol/decode.go:100-128 | Settings become maxima, the centre frequency is overridden, the parser joins those with its preamble. |
| Decoder.Decoder.Allocate | protocol/decode.go:131-160 | All buffers have their sizes; with symbols of whole bytes and fitting preambles they are those of the empty stream. |
| Runs.PreamblesOf | protocol/decode.go:111-124 | After any registrations the preambles are exactly those of the parsers, and each leads to its parsers. |
| Runs.PreambleParsers | protocol/decode.go:111-124 | Each preamble leads to exactly its parsers, in the order of registration. |
| Decoder.PreambleBit | protocol/decode.go:113-120 | The registered preamble has a one wherever the text has the digit 1, and a zero elsewhere. |
| Decoder.ScmSyncWord | scm/scm.go:49 | SCM is searched for by 111110010101001100000, bit by bit. |
| Decoder.ScmPlusSyncWord | scmplus/scmplus.go:56 | SCM+ is searched for by 0x16A3. |
| Decoder.IdmSyncWord | idm/idm.go:56 | IDM is searched for by 0x555516A3. |
| Decoder.R900SyncWord | r900/r900.go:73 | R900 is searched for by 0x0000E564. |
| Runs.ShippedPreambles | protocol/decode.go:111-124 | Of any shipped parsers each is registered under its sync word, and there are no other preambles. |
| Runs.ShippedReceivable | protocol/decode.go:104-124 | Shipped parsers in any order meet everything the search relies on. |
| Runs.SetUp | main.go:83-96 | Registering any non-empty choice of shipped parsers and allocating gives a decoder that is ready, has received nothing, searches for exactly their sync words, and has the largest settings and the lengths that follow. |
| R900EndToEnd.ShippedGeometry | protocol/decode.go:131-160 | For every set of shipped parsers in every order the buffers are sound and, with R900, its payload fits. |
| Demod.NewMagLUT | protocol/decode.go:209-216 | Entry i is the exact power of sample i. |
| Demod.SquareMeans | protocol/decode.go:209-216 | The table entry of sample i is the square of (127.5 - i) / 127.5, in units of 1/65025. |
| Demod.Execute | protocol/decode.go:219-225 | The output part receives the power of the block's IQ pairs; the overlap before it is kept. |
| Demod.ShiftDown | protocol/decode.go:165-166 | The end of the buffer moves to its front. |
| Demod.Cumulate | protocol/decode.go:232-236 | Entry k is the sum of the first k samples. |
| Demod.Filter | protocol/decode.go:229-245 | The output part receives the matched-filter decisions of the signal; the history before it is kept. |
| Stream.LevelIsOne | protocol/decode.go:238-244 | A tie is decided one: constant power, silence included, gives ones. |
| Stream.FilterConcat | protocol/decode.go:171-172 | Filtering with one symbol of overlap and appending is filtering everything in one pass. |
| Stream.BlockStep | protocol/decode.go:164-172 | Shift and filter of the newest block keep the buffer equal to the last decisions of the one-pass filter. |
| Demod.Pack | protocol/decode.go:259-265 | Each byte holds eight consecutive decisions, first one on top. |
| Demod.PruneSound | protocol/decode.go:268-280 | A byte equal to the mask contains no wanted bit. |
| Decoder.PruneLosesNothing | protocol/decode.go:267-294 | The byte phase keeps the byte of every match. |
| Decoder.PruneExact | protocol/decode.go:256-294 | The byte phase is lossless for all signals and preambles if and only if the symbol length is divisible by eight. |
| Demod.SearchPassByte | protocol/decode.go:330-338 | Keeps, in order, exactly the byte indices whose byte is not the mask. |
| Demod.SearchPass | protocol/decode.go:340-348 | Keeps, in order, exactly the indices whose decision is the wanted bit. |
| Demod.FirstPass | protocol/decode.go:273-283 | Lists, in order, the byte indices of the block whose byte is not the mask. |
| Demod.Expand | protocol/decode.go:299-307 | Every byte index becomes its eight sample indices, in order. |
| Decoder.ByteSearch | protocol/decode.go:256-294 | Leaves exactly the byte candidates of the whole preamble; giving up early loses no match. |
| Decoder.CandidatesAreMatches | protocol/decode.go:312-327 | What both phases leave is the set of matches in the block. |
| Decoder.SearchBuffers | protocol/decode.go:255-328 | Strictly increasing list of exactly the indices of the block at which the preamble occurs; both index lists stay within their capacity. |
| Decoder.Decoder.Search | protocol/decode.go:255-328 | The same on the decoder's own buffers. |
| Decoder.SamplePacket | protocol/decode.go:362-366 | Whole bytes hold the packet's bits whatever the scratch buffer held; a partial byte holds its bits behind old ones. |
| Decoder.Slice | protocol/decode.go:353-375 | One packet per index, in order, with the bits sampled at that index. |
| Decoder.Demodulate | protocol/decode.go:164-172 | After it the buffers are those of the stream with the block appended. |
| Decoder.Decoder.Decode | protocol/decode.go:163-188 | Keeps the buffers equal to the end of the one-pass filtered stream and returns for every preamble exactly the packets at its occurrences. |
| Decoder.ExactlyOnce | protocol/decode.go:163-180 | Every stream position is a search start in exactly one call, with its whole packet in the buffer. |
| Decoder.SentInBuffer | protocol/decode.go:229-245 | Every symbol of a sent packet is decided right in the buffer of its call. |
| Decoder.WaveformSent | protocol/decode.go:227-229 | A clean Manchester waveform, carrier on in the first chip of a one and the second of a zero, is a sent packet. |
| Decoder.DeliveredInCall | protocol/decode.go:353-375 | In its call a sent packet is listed exactly once, with the sent bits. |
| Runs.DecodeRun | protocol/decode.go:163-188 | Any number of calls: each returns, for every preamble, exactly the packets of its block over the one-pass filtered stream. |
| Runs.ReceivedAt | protocol/decode.go:163-169 | Sample j of block k of the stream is the power of that block's IQ pair j. |
| Runs.CallExists | protocol/decode.go:163-180 | The call for a position is the first or later, and is made exactly once the buffer behind the position has been filled. |
| Decoder.LinkTheorem | protocol/decode.go:163-197 | A Manchester packet of at most PacketSymbols bits sent anywhere in the stream is delivered with its bits by exactly one call of Decode, whatever the block boundaries. |
| Runs.LinkOverRun | protocol/decode.go:163-197 | Over a whole run exactly one call delivers a sent packet, once and with its bits; no other call lists its position. |
| PacketLink.PacketArrives | protocol/decode.go:163-188 | A packet of whole bytes sent anywhere is among the packets its call hands to the parsers. |
| PacketLink.ScmReceived | scm/scm.go:61-91 | A packet with SCM's sync word that spells any fields with a right checksum and a meter id, sent anywhere in the stream, yields the message of these fields in the call for its position. |
| PacketLink.IdmReceived | idm/idm.go:62-98 | A packet with IDM's sync word that spells any fields with both checks right and a serial number, sent anywhere in the stream, yields the message of these fields in the call for its position. |
| R900Filter.FormulasAreCorrelations | r900/r900.go:131-139 | The three simplified cumulative-sum formulas are the correlations with 1100, 1010 and 1001. |
| R900Filter.ChipsOfDigits | r900/r900.go:107-130 | The on-chips of the six digits are 0011, 0101, 0110, 1100, 1010 and 1001. |
| R900Filter.QuantizeLargest | r900/r900.go:141-156 | For any three numbers, argmax and sign rule pick the first of largest absolute value and its sign. |
| R900Filter.OnAndOff | r900/r900.go:264-270 | A digit's on and off energy add up to the total and differ by its signed correlation. |
| R900Filter.DigitOptimal | r900/r900.go:141-156 | No balanced pattern collects more energy in its on-chips than the decided one. |
| R900Filter.DominantDigit | r900/r900.go:141-156 | If every on-chip of a digit outweighs every off-chip, that digit is decided. |
| R900Filter.SymbolEnergy | r900/r900.go:264-270 | Per symbol, on and off energy add up to the total and differ by the largest absolute correlation. |
| R900Filter.Decision | r900/r900.go:131-156 | Loop body: argmax and sign rule on the cumulative sums decide the window's digit. |
| R900Filter.Filter | r900/r900.go:91-158 | Every index below the limit receives the digit of its window. |
| R900Message.FieldsRoundTrip | r900/r900.go:245-252 | Parsing undoes printing for all fields in range. |
| R900Message.FieldPlaces | r900/r900.go:245-252 | The parser reads fields exactly from the bits that spell each of them at its place. |
| R900Message.BitsRoundTrip | r900/r900.go:245-252 | Printing undoes parsing: the fields determine the 80 data bits. |
| R900Message.GroupThenPrint | r900/r900.go:221-223 | Grouping bits by five and printing the symbols gives the bits back. |
| R900Message.PrintThenGroup | r900/r900_test.go:93-100 | Printing symbols and grouping the bits gives the symbols back. |
| R900Message.SymbolPlaces | r900/r900.go:221-223 | Symbol k stands in bits 5k to 5k + 4, most significant first. |
| R900Message.DigitPlaces | r900/r900.go:212-214 | Symbol k is digits 2k and 2k + 1, the sixes first. |
| R900Message.DigitsRoundTrip | r900/r900.go:212-224 | Pairing base-6 digits undoes their expansion. |
| R900Message.WordCarries | r900/r900_test.go:82-103 | A word built from fields is parsed to these fields, whatever its parity. |
| R900Parser.PayloadInBounds | r900/r900.go:207-210 | All payload reads are inside the buffers and read only freshly decided entries. |
| R900Parser.LoadDigits | r900/r900.go:208-210 | The digits sampled are those of the payload's windows. |
| R900Parser.LoadSymbols | r900/r900.go:212-228 | Digit pairs become symbols and bits, unless a pair exceeds five bits. |
| R900Parser.Check | r900/r900.go:237-243 | A word passes exactly if all five syndromes of its zero-padded form vanish. |
| R900Parser.Measure | r900/r900.go:260-272 | The two sums are the payload's energies in chips decided on and off. |
| R900Parser.EnergyConserved | r900/r900.go:260-272 | Every payload sample is counted once; signal minus noise is the sum of the largest correlations, so never negative. |
| R900Parser.BestEnergyStep | r900/r900.go:260-272 | Every symbol adds the largest of its three absolute correlations to signal minus noise. |
| R900Parser.SeenAreSpelled | r900/r900.go:230-235 | The seen map holds exactly the words spelled so far. |
| R900Parser.SentAreAccepted | r900/r900.go:202-305 | Every message is that of an acceptable candidate. |
| R900Parser.AcceptedAreSent | r900/r900.go:202-305 | Every accepted word is announced. |
| R900Parser.SentAreDistinct | r900/r900.go:230-235 | No two messages of a block agree in fields and checksum. |
| R900Parser.SentAreFirst | r900/r900.go:230-235 | Every message is that of the first candidate that spells its word. |
| R900Parser.SentInOrder | r900/r900.go:202-305 | Messages are sent in the order of their candidates. |
| R900Parser.EmittedMeasured | r900/r900.go:260-288 | Every message measures the payload of the first candidate that spells its word: signal and noise add up to the payload's energy and differ by the sum of the largest correlations. |
| R900Parser.ScanPackets | r900/r900.go:193-305 | The loop over the candidates emits exactly the specified messages. |
| R900Parser.Advance | r900/r900.go:176-178 | The signal history moves on by one block in step with the decoder. |
| R900Parser.Extract | r900/r900.go:183-305 | Filter and scan, or neither without candidates, emit what always filtering would. |
| R900Parser.Parser.Parse | r900/r900.go:168-308 | Every call keeps the history equal to the end of the stream; the messages depend on it and the candidates alone, so skipping the filter changes nothing over any run. |
| R900Parser.DecoderSampleBuffer | r900/r900.go:178 | The decoder's sample buffer is the end of the stream, as the parser assumes. |
| R900Link.Alignment | r900/r900.go:207 | Decoder index i and history index i - SymbolLength refer to the same stream samples. |
| R900Link.ReadBack | r900/r900.go:202-228 | A dominated payload is read back as the word that was sent. |
| R900Link.RoundTrip | r900/r900_test.go:153-209 | For all fields, if the payload dominates at a candidate, the block yields exactly one message with these fields and parity; it measures the first candidate that reads them, with 84 chips of signal and no noise if that is a written waveform. |
| R900Link.OnlyAcceptedWords | r900/r900_test.go:216-239 | Every message emitted carries a word that passes the check, and its signal energy is not below its noise energy. |
| R900Link.NoiseBelowHalfGap | r900/r900.go:119-157 | Per-sample noise below half the gap between the two levels makes a symbol dominate. |
| R900Link.BuildSymbols | r900/r900_test.go:82-103 | Succeeds exactly if every field fits its digits; the 21 symbols carry the fields and pass the check. |
| R900Link.WriteWaveform | r900/r900_test.go:106-123 | Each digit's on-chips are at full power, its off-chips at zero, and nothing else changes. |
| R900Link.WaveformDominates | r900/r900_test.go:105-123 | A written waveform dominates in every symbol. |
| R900Link.WaveformEnergies | r900/r900_test.go:197-203 | Over a written waveform the on-energy is two chips per digit and the off-energy zero. |
| R900Link.FullScale | r900/r900_test.go:197-203 | A message that measures a written payload has signal energy 84 times the chip length and noise energy zero. |
| R900Link.WrittenFirst | r900/r900_test.go:197-203 | If the written payload is the first to be read, the one message of its fields reports full signal and no noise. |
| R900EndToEnd.PacketReceived | r900/r900.go:168-308 | A preamble anywhere in the stream with a dominating payload becomes exactly one message with its fields, in the call for its position, and the message measures the payload. |
| R900EndToEnd.Block | protocol/decode.go:163-187 | What Decode leaves behind is what the R900 parser needs; both stay in step with the stream, and the parser gains only new buffers. |
| R900EndToEnd.Run | r900/r900.go:168-308 | Any number of blocks through decoder and parser from the start: every call's candidates and messages are those of the stream up to its block. |
| R900EndToEnd.ReceivedInRun | r900/r900.go:168-308 | Over a whole run, a packet sent anywhere is announced exactly once by the call for its position, with the energies of its payload. |
| R900EndToEnd.ObjectsAligned | r900/r900.go:207 | After any run the decoder's decision i is the decision at index i - SymbolLength of the parser's history. |
| FanIn.BcdRoundTrip | r900bcd/r900bcd.go:61-67 | Every binary-coded decimal is converted back to its number, nothing else is converted, and the result never exceeds the input. |
| FanIn.RelayedDigits | r900bcd/r900bcd.go:63-66 | The relayed consumption has the hexadecimal digits as its decimal digits, and is zero exactly where one of them exceeds nine. |
| FanIn.StepKeepsInv | protocol/decode.go:181-194 | Every step of every interleaving keeps the invariant, with any number of parsers and relays. |
| FanIn.StepConserves | r900bcd/r900bcd.go:48-70 | No step loses or duplicates a message, also through the relay. |
| FanIn.StepSends | protocol/decode.go:181-194 | In every step at most one parser hands over a message, the first it has, and no other changes: each parser's messages stay in order. |
| FanIn.StepWorks | r900bcd/r900bcd.go:48-70 | Every step uses up some of a finite amount of work. |
| FanIn.Progress | protocol/decode.go:190-194 | Until the channel is drained some step is possible: no deadlock. |
| FanIn.EveryRun | protocol/decode.go:174-196 | Over all runs: no send on a closed channel, no negative wait group, closing only after all parsers are done, nothing received that was not sent, bounded length. |
| FanIn.ParserDelivered | protocol/decode.go:174-196 | Of a message type that one parser sends, the consumer of a finished run has exactly that parser's messages, in the order sent. |
| FanIn.FinishedRun | protocol/decode.go:174-196 | A run that can go no further has closed the channel and delivered exactly the messages of all parsers. |
| Receiver.UniqueFilter.Filter | flags.go:250-261 | Refuses exactly a repetition of the meter's last checksum, and remembers otherwise. |
| Receiver.FilterChain.Match | protocol/parse.go:152-164 | Accepts exactly if every filter does, and only filters before the first refusal are updated. |
| Receiver.BuildChain | main.go:119-132 | The chain holds the flags' filters in the order of their names. |
| Receiver.ChainMeaning | flags.go:228-261 | For every meter the wanted messages pass in order; with the unique flag consecutive equal checksums are collapsed to the first. |
| Receiver.OfMeterMembers | flags.go:228-238 | The wanted messages of a meter are exactly those with its id, a listed id if ids are listed, and a listed type if types are. |
| Receiver.CollapseStretch | flags.go:250-261 | A stretch of messages with equal checksums collapses to its first message. |
| Receiver.Receiver.Block | main.go:238-311 | Outputs what the chain accepts and was not accepted in the previous block; the maps then hold this block's digests. |
| Receiver.Run | main.go:226-314 | Over all blocks: a message is in block k's output exactly if it is accepted there and no message accepted in block k - 1 agrees with it in type, meter type, meter id and checksum. |
| Receiver.DigestMeans | protocol/parse.go:87-101 | Two messages have one digest exactly if they agree in type, meter type, meter id and checksum. |
| Receiver.OutputMeans | main.go:269-279 | The same for the specified output, message by message. |
| Receiver.UnseenConcat | main.go:254-279 | Suppression works on each part of a block alone, so what is output keeps its order. |
| Receiver.ReportedOnce | main.go:254-311 | An accepted message is reported once: over the stretch of blocks that accept messages like it the first block and no other outputs one, the message itself if the stretch starts with its block. |
| Receiver.OutputIff | main.go:269-279 | A digest is output in a block exactly if it is accepted there and was not in the block before; then all its messages are. |
| Receiver.FirstBlockOnly | main.go:269-279 | Over a contiguous run of blocks with the same digest only the first outputs it. |
| Receiver.OutputOnce | main.go:269-311 | No accepted digest is lost: the stretch of blocks that accept it outputs it in its first block and nowhere else. |
| Receiver.PlainMembers | flags.go:228-238 | Without the unique filter the chain accepts exactly the wanted messages, each as often as it came. |
| Receiver.AcrossBlocks | main.go:242-245 | Block boundaries do not matter to the chain's accepted sequence. |
| Reception.FanInAnnounces | main.go:254 | Whatever the interleaving, a block's messages of one type are those its parser sends, in order. |
| Reception.RelayedReading | r900bcd/r900bcd.go:61-68 | The relay changes the message type and the consumption of an R900 message, and nothing else. |
| Reception.RelayAnnounces | r900bcd/r900bcd.go:42-71 | Whatever the interleaving, the R900BCD messages of a block are those of its R900 parser, in order and converted. |
| Reception.Heard | protocol/decode.go:104-160 | For any shipped parsers the set-up decoder searches for the sync word of each parser among them and holds its packets. |
| Reception.ScmSeen | scm/scm.go:122-160 | The receiver sees an SCM packet's meter id, type, its last two bytes as checksum, and its fields in the order of the record. |
| Reception.IdmSeen | idm/idm.go:165-181 | Likewise for an IDM packet: serial number, type, bytes 90 and 91. |
| Reception.AnnouncedIsReported | main.go:254-311 | Every announced message with a listed id and type is accepted, and over the stretch of blocks that accept messages like it one is output in the first block and in no other. |
| Reception.ScmReported | main.go:254-311 | An SCM packet of any fields sent anywhere in the stream of a run is reported once, with its id, type, checksum and record, also when its matching offsets straddle blocks. |
| Reception.IdmReported | main.go:254-311 | Likewise for an IDM packet. |
| Reception.R900Reported | main.go:254-311 | Likewise for an R900 packet, read by the R900 parser or behind the relay. |

## Left out

- GaloisField.NewField: for orders from 1 to 256 the model assumes a power of two, the only orders a field can have; other orders are not modelled. A generator outside the field, which the program notices by an index out of range in the second round, panics up front.
- GaloisField.MulMod: the second factor is assumed to be reduced and the modulus to have the degree of the order, as in every call the program makes.
- GaloisField.PolyDiv: a zero divisor, for which the program's loop does not end, is excluded; the program never passes one.
- ReedSolomon.Horner: a message is not empty, as in the program, where an empty one is only possible without syndromes.
- Decoder.SamplePacket: bits of a last partial byte that come from earlier packets are described but not used.
- Decoder.ByteSearch: an empty preamble is excluded; no parser has one.
- Decoder.SearchBuffers: an empty preamble is excluded. The two index lists are values: their lengths are bounded, but that the list returned is a buffer the next search overwrites is not expressed.
- Decoder.Decoder.Search: an empty preamble is excluded, as in SearchBuffers.
- Decoder.Decoder.Decode: starting the parsers and closing the channel are the subject of FanIn.
- Decoder.Decoder.Allocate: a chip length or preamble of zero symbols is excluded, since the block size is then the power of two of an infinite logarithm.
- R900Parser.Parser.Parse: receives the decoder's settings and sample buffer instead of the decoder object; R900EndToEnd.Block puts the two objects together. The packet must hold the longest preamble and R900's payload, as otherwise reads would leave the buffers; with R900 registered among shipped parsers it does. R900EndToEnd.PacketReceived, which locates the payload, is about a preamble as long as the decoder's longest. The messages are returned in the order of sending; the channel is the subject of the fan-in model.
- Scm.Parser.Parse: packets have at least 96 bits, which registration guarantees; the parser's own Bits field is not kept between candidates.
- Idm.Parser.Parse: packets have at least 736 bits, likewise.
- Floating point: float32 rounding, negative zero and NaN; the logarithms that turn signal and noise energy into RSSI and SNR (the two energies stand for them); math.Log2 in NextPowerOf2 is taken as exact.
- The field tables and the magnitude table are immutable values once built, since nothing changes them afterwards.
- Order in which Decode visits its preambles: arbitrary in the program, arbitrary in the model.
- FanIn.Apply: a consumer that stops reading (the early exit of the single flag) is not modelled; the consumer drains the channel.
- FanIn.BcdRoundTrip: consumption is not limited to 32 bits; the conversion never yields more than it is given, so the program's range check cannot strike.
- Receiver.Receiver.Block: the single flag, which edits the identifier set, encoding errors, time stamps and the sample file are left out; a message's record is the values of its printed fields.
- Receiver.Run: cancellation and the goroutine that reads blocks are left out; the blocks' messages are given.
- Reception.AnnouncedIsReported: is about the identifier and type filters; which messages the unique filter lets pass is said by Receiver.ChainMeaning.
- Reception.R900Reported: leaves the two energies of the record open; R900EndToEnd.ReceivedInRun says what they are.
- Connection to rtl_tcp, deadlines, tuner flags, signals and sample files: input and output.
- String, Record and Headers formatting, the CSV, JSON and XML encoders: formatting only.
- cmd/rtlamrscan: plumbing and folds over history.
- scmplus and netidm: the same acceptance and field slicing as scm and idm; only their radio settings appear.
- Flag parsing, environment overrides, the parser registry, misc and assets: no behaviour of interest.
