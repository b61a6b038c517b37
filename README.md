# ip_filter in Dafny

This project models `main.cpp` of the ip_filter exercise. The program reads
lines from standard input. It takes each line's first tab-separated field as a
dotted IPv4 address and converts it to a vector of octets. It sorts the pool of
records in reverse lexicographic order and prints it. Then it prints three
selections of the sorted pool:
- records whose first octet is 1;
- records whose first two octets are 46 and 70;
- records that hold the octet 46 anywhere.

Modules, one per part of the program:

- `Wrappers`: `Option`, used for the failure paths.
- `IpTypes`: `Octet` (a `uint8_t`), the `static_cast<uint8_t>` truncation, and
  `Address`, a record the comparator and filters may index at 0..3.
- `Tokenizer`: `split`.
  - The recursive specification `Split`.
  - The loop itself, `SplitLoop`, proved equal to `Split`.
  - The count, delimiter-freedom and both join/split round trips.
  - The six worked examples written above the function.
- `Parser`: `convert`.
  - A decimal reading of every field, taken modulo 256.
  - A failure (`None`) when a field is not a number.
  - The loop `Convert` is proved equal to the specification `Converted`.
- `Printer`: the text `print_ip_addresses` writes for each record, and the
  print/parse round trip.
- `Ordering`: `compare_ips` and the descending sort.
  - The comparator is lexicographic "greater" on octets 0..3, and it is a
    strict order.
  - The sort is an in-place insertion sort on an array, proved to leave the
    pool descending and a permutation of its input.
  - For four-octet records, the descending arrangement is unique.
- `Filters`: the three `copy_if` selections.
  - One loop `CopyIf`, proved equal to the order-preserving selection `Select`.
  - `Select` holds exactly the accepted records, at increasing positions.
  - `Select` keeps the pool's descending order.
- `Pipeline`: the body of `main` as one method `Run`.
  - It takes the input lines and returns either the four printed blocks or the
    reason the run printed nothing.

## Model

| member | source | states |
|---|---|---|
| IpTypes.ToOctet | main.cpp:62 | the `static_cast<uint8_t>` of a value is that value when it is in 0..255, and otherwise agrees with it modulo 256 |
| Tokenizer.FindFirstOf | main.cpp:23-29 | `find_first_of(d, from)`: a found position is at or after `from`, inside the string and holds `d` |
| Tokenizer.FindFirstOfFirst | main.cpp:23-29 | `find_first_of` skips no delimiter: none lies between `from` and the position found, and none at all after `from` when nothing is found |
| Tokenizer.Split | main.cpp:18-35 | the segments of `split`, left to right, are never an empty vector, so `v.at(0)` at main.cpp:104 cannot throw |
| Tokenizer.SplitLoop | main.cpp:18-35 | the `start`/`stop` loop that pushes every segment, then the tail, returns exactly the segments of the recursive specification `Split` |
| Tokenizer.SegmentsFromSuffix | main.cpp:22-32 | the segments the loop reads from cursor `start` are the segments of the suffix that starts there |
| Tokenizer.SplitCount | main.cpp:18-35 | `split(s, d)` has one more segment than `s` has occurrences of `d` |
| Tokenizer.SplitPiecesFree | main.cpp:18-35 | no segment contains the delimiter |
| Tokenizer.JoinSplit | main.cpp:18-35 | joining the segments with the delimiter gives back the input string |
| Tokenizer.SplitJoin | main.cpp:18-35 | splitting a join of one or more delimiter-free segments gives the segments back |
| Tokenizer.SplitWithoutDelimiter | main.cpp:22-32 | a string without the delimiter splits into itself alone |
| Tokenizer.SplitExamplesPlain | main.cpp:12-13 | `("", '.')` gives `[""]` and `("11", '.')` gives `["11"]` |
| Tokenizer.SplitExampleDelimitersOnly | main.cpp:14 | `("..", '.')` gives three empty segments |
| Tokenizer.SplitExampleTrailing | main.cpp:15 | `("11.", '.')` gives `["11", ""]` |
| Tokenizer.SplitExampleLeading | main.cpp:16 | `(".11", '.')` gives `["", "11"]` |
| Tokenizer.SplitExampleTwoFields | main.cpp:17 | `("11.22", '.')` gives `["11", "22"]` |
| Parser.ParseDecimal | main.cpp:62 | the part of `std::stoi` the model keeps: an empty field fails, and a field that parses is all decimal digits with a value of at most 2147483647 |
| Parser.Converted | main.cpp:57-65 | `convert` fails exactly when some field does not parse; otherwise it returns one octet per field, in field order, each the parsed value modulo 256 |
| Parser.Convert | main.cpp:57-65 | the range loop that appends one truncated octet per field computes `Converted`, failing on the first bad field |
| Parser.ConvertWraps | main.cpp:62 | `["256","0","0","0"]` converts to 0.0.0.0: there is no range check |
| Parser.ConvertFourFields | main.cpp:57-65 | `["1","2","3","4"]` converts to 1.2.3.4 |
| Parser.ConvertThreeFields | main.cpp:57-65 | three fields give three octets: the field count is not checked |
| Parser.ConvertRejects | main.cpp:62 | one non-numeric field fails the whole conversion |
| Printer.DigitChar | main.cpp:78 | the character written for a digit is a decimal digit of that value |
| Printer.Decimal | main.cpp:78 | `operator<<` on an `int` writes a non-empty run of decimal digits |
| Printer.DecimalDigits | main.cpp:78 | the decimal text of a number has no leading zero and reads back as the number |
| Printer.DecimalRoundTrip | main.cpp:78 | a printed octet read back by the decimal parser is the same number |
| Printer.DecimalsWithoutDot | main.cpp:71-79 | no printed octet contains "." |
| Printer.FormatAddress | main.cpp:71-79 | the line printed for one record holds only decimal digits and the "." written between octets |
| Printer.Lines | main.cpp:67-82 | a printed block has one line per record, and no line holds a tab |
| Printer.ConvertDecimals | main.cpp:57-82 | converting the printed octets of a record gives the record back |
| Printer.FormatParseRoundTrip | main.cpp:57-82 | a printed record, split at "." and converted, gives back the record |
| Ordering.CompareIps | main.cpp:37-55 | when the first octets differ they alone decide `compare_ips`, and a record is never greater than one that agrees with it on octets 0..3 |
| Ordering.CompareIpsIsLexGreater | main.cpp:37-55 | `compare_ips(lhs, rhs)` holds exactly when octets 0..3 of `lhs` are lexicographically greater than those of `rhs`, octet 0 most significant |
| Ordering.CompareIpsStrictOrder | main.cpp:37-55 | `compare_ips` is irreflexive, asymmetric and transitive, and neither direction holds exactly when octets 0..3 are equal |
| Ordering.NotGreaterTransitive | main.cpp:37-55 | "not greater" under `compare_ips` is transitive |
| Ordering.SortDescending | main.cpp:107-110 | after the sort, the pool is descending under `compare_ips` and is a permutation of the parsed pool |
| Ordering.InsertDown | main.cpp:107-110 | one insertion step makes the prefix up to `i` descending, leaves every record after `i` where it was, and only permutes the pool |
| Ordering.Swap | main.cpp:107-110 | exchanging two records changes those two positions only |
| Ordering.HeadIsMaximal | main.cpp:107-110 | no record of a descending pool is greater than its first record |
| Ordering.SortedUnique | main.cpp:107-110 | two descending arrangements of the same four-octet records are equal, so the sorted pool does not depend on the sort algorithm |
| Ordering.SortExample | main.cpp:107-110 | sorting 1.1.1.1, 2.2.2.2, 1.2.3.4 gives 2.2.2.2, 1.2.3.4, 1.1.1.1 |
| Filters.Select | main.cpp:123-124 | what `copy_if` appends is no longer than the pool, and every record in it is accepted by the test |
| Filters.CopyIf | main.cpp:123-124 | the `copy_if` loop with a `back_inserter` appends exactly the order-preserving selection `Select` |
| Filters.FirstOctetIs1 | main.cpp:124 | a record the first-octet filter keeps is also kept by `filter_any(ip_pool, 1)` |
| Filters.FirstOctetsAre46And70 | main.cpp:136-138 | a record the 46.70 filter keeps holds both octets 46 and 70 |
| Filters.FilterAny | main.cpp:84-91 | `filter_any(pool, value)` is the selection of the records that hold `value` at some position, and each of them holds it |
| Filters.SelectIsSubsequence | main.cpp:84-91 | a selection is the pool read at strictly increasing positions, which are exactly the positions of accepted records |
| Filters.SelectCounts | main.cpp:135-138 | every record occurs in a selection as often as in the pool if accepted, otherwise not at all |
| Filters.SelectMembers | main.cpp:123-124 | a record is selected exactly when it is in the pool and accepted |
| Filters.SelectKeepsOrder | main.cpp:121-149 | a selection from the descending pool is descending |
| Filters.SelectNarrows | main.cpp:135-148 | selecting by a stronger test equals selecting by it from the selection by a weaker test |
| Filters.FirstOctets46And70AreAny46 | main.cpp:135-148 | every record the 46.70 filter prints is also printed by `filter_any(ip_pool, 46)` |
| Filters.FilterExample | main.cpp:121-149 | on 1.231.69.33, 46.70.225.39, 46.70.147.26, 2.2.2.2, the three filters select 1.231.69.33 and then twice 46.70.225.39, 46.70.147.26 |
| Pipeline.ParseLine | main.cpp:103-104 | a line without a tab is its own first field: its record is the line split at "." and converted |
| Pipeline.ParseLineIgnoresExtraFields | main.cpp:103-104 | the fields after the first tab do not change the record read from a line |
| Pipeline.ReadPool | main.cpp:99-105 | the read loop fails exactly when some line does not parse, and otherwise yields one record per line in input order |
| Pipeline.SortPool | main.cpp:107-110 | the sorted pool is descending under `compare_ips` and holds the same records |
| Pipeline.Run | main.cpp:93-192 | a field that does not parse fails the run; otherwise a record shorter than four octets fails it; otherwise the four blocks are the pool sorted descending as a permutation of the parsed lines, then its three selections; no input lines give four empty blocks |
| Pipeline.Output | main.cpp:111-149 | the text written to standard output is the four printed blocks, one line per record of each, and starts with the lines of the sorted pool |
| Pipeline.ReparsePrintedLine | main.cpp:67-105 | a printed line, read as an input line, parses to the record it was printed from |
| Pipeline.ReparseBlock | main.cpp:101-111 | the printed first block, fed back as input, parses to the same pool |

## Left out

- Stream I/O is not modelled: `std::getline` on `std::cin`, the `std::cout` writes and `std::endl`, and the `std::cerr` message in the catch block. `Run` takes the lines as a sequence. It returns the blocks as a `Report`, and `Output` gives their text line by line.
- `boost::ignore_unused` and `lib.h` are not part of this model. They do not take part in the pipeline.
- Parser.ParseDecimal: `std::stoi` is modelled as a simplified parser. A non-empty run of decimal digits whose value is at most 2147483647 is accepted; everything else fails. Leading whitespace, a sign and trailing characters after the digits are not modelled. With `std::stoi`, " 12", "+12" and "12\r" would all parse.
- Exceptions are not modelled as control flow. The `invalid_argument` or `out_of_range` that `std::stoi` throws becomes the result `Failed(ParseError)`. That result prints nothing: the exception leaves the read loop before the first print.
- Pipeline.Run: the model stops with `Failed(ShortAddress)` whenever some record has fewer than four octets, even where the source's output is defined.
  - `compare_ips` reads octet n of a record with only n octets only when that record agrees with the other record on all n of its octets. The 46.70 filter reads octet 1 only when octet 0 is 46. Only such reads go past the end of a vector, which is undefined behaviour.
  - Whether the comparator makes such a read depends on which comparisons `std::sort` performs.
  - So some short records are handled well in the source. The single line "1.2.3" is printed in the first and second blocks. The lines "1.2.3" and "5.6.7.8" compare on octet 0 only.
- Ordering.SortDescending: the algorithm inside `std::sort` and its instability are not modelled. Only the result is specified: descending and a permutation. `SortedUnique` shows that for four-octet records this result is unique. For longer records that tie on octets 0..3, the order of the tied records is not specified.
- The `int` of `std::stoi` is taken to be 32 bits wide.
- Idempotence of the whole run is stated through its parts. `ReparseBlock` reads the printed pool back as the same pool. `SortedUnique` makes the sorted order unique. A second run is not stated as one lemma about `Run`, because a lemma cannot call a method.
- The code checks neither the 0..255 range nor the number of fields of an address. The model does the same: it wraps values modulo 256 and accepts any number of fields (`ConvertWraps`, `ConvertThreeFields`).
- `std::sort` is not stable, so the model promises no order among records that tie on octets 0..3.
