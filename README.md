# erdi8 in Dafny

erdi8 turns non-negative integers into short identifiers and back. An
identifier is written in a 33-symbol alphabet, `23456789abcdefghijkmnopqrstuvwxyz`.
In safe mode the alphabet drops the vowels `aeiou` and keeps 28 symbols. No
identifier may start with one of the first OFFSET = 8 symbols, so every
identifier starts with a letter. Zero is `a`, and each identifier is followed
by its successor under `increment`. `increment_fancy` steps through all
identifiers of one length in an order that looks scrambled: it adds a fixed
stride, coprime with the number of such identifiers, modulo that number.

The model has these modules:

- `Numeration` (numeration.dfy) is the numeration behind both codecs, written
  once for any alphabet of distinct symbols that has more than OFFSET of them.
  - `Value` and `Decode` give a string's number.
  - `Encode` is a reference encoder: a recursive function, defined on its own.
  - `Hi` gives the lengths' boundaries.
  - The lemmas prove the round trips, injectivity, the ranges of each length
    and the successor's shape.
- `Alphabets` (alphabets.dfy) holds the two concrete alphabets. It proves
  that removing the vowels from the full alphabet gives the 28-symbol safe
  alphabet.
- `Legacy` (legacy.dfy) is the older module-level codec in `erdi8.py`:
  - `increment` and `encode_int` are recursive functions there, so they are
    Dafny functions here;
  - `decode_int` is a loop, so it is a method.
- `Codec` (codec.dfy) is the `Erdi8` class in `erdi8/erdi8.py`.
  - The class fields are `const` fields fixed by the constructor.
  - `check`, `increment`, `encode_int`, `decode_int` and `increment_fancy`
    are methods with the source's loops.
  - Each method is proved against the `Numeration` and `Fancy` functions.
  - With the full alphabet, the class is proved equal to `Legacy` on the
    empty string and on every identifier, and on every int for
    `encode_int`.
- `Loops` (loops.dfy) holds the loop states of the class methods and the
  lemmas that carry one loop turn.
- `Fancy` (fancy.dfy) specifies `increment_fancy` as a function.
  - Its mod space is the interval of numbers that have identifiers of one
    length.
  - It proves the full cycle: repeating the step visits every identifier of
    that length exactly once before it returns to the start.
- `Order` (order.dfy) proves that numbers are ordered as their identifiers
  are: shorter identifiers first, then by the first differing symbol.
- `Coprime` (coprime.dfy) holds Euclid's gcd, Bezout's identity, the seed
  search, and the walk of a coprime step around a residue ring.
- `Arith` (arith.dfy) holds facts about division and multiplication.

## Model

| member | source | states |
|---|---|---|
| Numeration.RankMap | erdi8/erdi8.py:31 | the map's keys are exactly the alphabet's symbols, and each maps to its position |
| Numeration.Find | erdi8/erdi8.py:31 | the first index of the symbol, -1 when it is absent; the symbol does not occur before that index |
| Numeration.Encode | erdi8/erdi8.py:88-103 | reference encoder: its result is an identifier and decodes back to n |
| Numeration.EncodeDecode | erdi8/erdi8.py:105-119 | every identifier decodes to a natural, and encoding that number gives the identifier back |
| Numeration.DecodeInjective | erdi8/erdi8.py:105-119 | two identifiers with the same number are equal |
| Numeration.ValueRange | erdi8/erdi8.py:105-119 | an identifier of length L has a value in (Hi(B, L-1), Hi(B, L)] |
| Numeration.EncodeLength | erdi8/erdi8.py:88-103 | the identifier of n has length L exactly when Hi(B, L-1) <= n < Hi(B, L) |
| Numeration.HiStep | erdi8/erdi8.py:80-83 | there are (B - OFFSET) * B^(L-1) numbers between the boundaries of lengths L-1 and L |
| Numeration.ValueTopRun | erdi8/erdi8.py:81-82 | a run of L copies of the last symbol has the value Hi(B, L), the largest of its length |
| Numeration.ZeroIs | erdi8/erdi8.py:88-103 | for any alphabet, encode_int(0) is the symbol of rank OFFSET, the same string increment returns for "" (lines 58-59) |
| Numeration.TopRunSuccessor | erdi8/erdi8.py:65-74 | for any alphabet, the identifier after a run of L last symbols is the symbol of rank OFFSET followed by L first symbols |
| Numeration.Overflow | erdi8/erdi8.py:65-74 | the successor of an all-'z' string is the symbol of rank OFFSET followed by as many first symbols |
| Numeration.StopValue | erdi8/erdi8.py:65-74 | raising the symbol before the trailing run of 'z's and resetting the run adds one to the value |
| Numeration.StopShape | erdi8/erdi8.py:65-74 | that successor keeps the length and every symbol before the raised one |
| Numeration.CarryRun | erdi8/erdi8.py:68-70 | a trailing run of 'z's that wraps to first symbols adds one, with the carry taken by the prefix |
| Numeration.PrependNeutral | erdi8/erdi8.py:73-74 | a leading symbol of rank OFFSET - 1 adds nothing to the value |
| Numeration.LeadingRank | erdi8/erdi8.py:39 | a symbol ranks at least OFFSET exactly when it is not among the first OFFSET symbols |
| Numeration.DecodeTurn | erdi8/erdi8.py:110-118 | one turn of decode_int adds the next symbol's digit times B^counter to the suffix's value |
| Numeration.LastDigitSplit | erdi8/erdi8.py:88-94 | for an identifier, (number + OFFSET) divided by B gives the prefix's value; the remainder gives the last symbol's rank |
| Numeration.SplitDigits | erdi8/erdi8.py:90-94 | the adjusted quotient and the symbol index are the quotient and remainder of n + OFFSET; the quotient minus one is below n |
| Alphabets.FullSpelledOut | erdi8/erdi8.py:24 | the full alphabet is "23456789abcdefghijkmnopqrstuvwxyz" |
| Alphabets.SafeSpelledOut | erdi8/erdi8.py:28-29 | removing the vowels "aeiou" from the full alphabet gives "23456789bcdfghjkmnpqrstvwxyz" |
| Alphabets.Strip | erdi8/erdi8.py:29 | the result holds exactly the input's symbols that are not vowels |
| Alphabets.StripIsSafe | erdi8/erdi8.py:29 | the safe-mode alphabet is the ordered 28-symbol alphabet without vowels |
| Alphabets.AlphabetFacts | erdi8/erdi8.py:24-33 | both alphabets have distinct symbols, end in 'z', and have 33 and 28 symbols |
| Alphabets.SafeHasNoVowels | erdi8/erdi8.py:22-30 | a vowel is in the full alphabet and not in the safe one |
| Codec.VowelsRejected | erdi8/erdi8.py:45-54 | in safe mode, no string that contains a vowel is a valid identifier |
| Codec.Erdi8.constructor | erdi8/erdi8.py:27-33 | the instance holds the full or the safe alphabet, a matching rank map and its length |
| Codec.Erdi8.Facts | erdi8/erdi8.py:24-33 | the instance's alphabet has 33 or 28 symbols; without safe mode it is the module-level ALPH |
| Codec.Erdi8.Check | erdi8/erdi8.py:35-55 | the check passes exactly when the string is empty, or is over the alphabet and does not start with one of the first OFFSET symbols |
| Codec.Erdi8.Increment | erdi8/erdi8.py:57-75 | None exactly for a non-empty string the check rejects; otherwise an identifier one greater, of the same length and prefix unless all 'z', equal to the encoding of the next number |
| Codec.Erdi8.Carry | erdi8/erdi8.py:62-75 | the carry loop ends with the successor of the identifier |
| Codec.Erdi8.EncodeInt | erdi8/erdi8.py:88-103 | for n >= 0: an identifier that decodes to n, equal to the reference encoder; for n < 0: the single symbol the remainder selects |
| Codec.Erdi8.DecodeInt | erdi8/erdi8.py:105-119 | None exactly when the check fails; otherwise the string's number (-1 for the empty string), which encodes back to the string |
| Codec.Erdi8.IncrementFancy | erdi8/erdi8.py:77-86 | None exactly when the check fails; otherwise the specified next identifier in the mod space |
| Codec.Erdi8.ModSpace | erdi8/erdi8.py:80-83 | the two runs of 'z' give the mod space of the given length |
| Codec.Erdi8.SeedSearch | erdi8/erdi8.py:84-85 | the loop ends at the smallest seed >= the given one that makes mini + seed coprime with the space |
| Codec.Erdi8.EncodeIntIsLegacy | erdi8.py:21-29 | without safe mode, the class's encode_int agrees with the module-level one on every integer |
| Codec.Erdi8.IncrementIsLegacy | erdi8.py:9-18 | without safe mode, the class's increment agrees with the module-level one on every valid string |
| Legacy.AlphabetFacts | erdi8.py:2-6 | ALPH has distinct symbols, 33 of them, starts with '2', ends with 'z', and has 'a' at rank OFFSET |
| Legacy.RankOf | erdi8.py:5 | ALPH_MAP gives every symbol of ALPH its position |
| Legacy.Increment | erdi8.py:9-18 | for every string whose last symbol, and every symbol the carry reaches, is in ALPH: the successor's value is one more, and it is over ALPH when the input is |
| Legacy.OverReads | erdi8.py:12-16 | a string over ALPH passes every lookup the successor makes |
| Legacy.ForeignFront | erdi8.py:12-18 | when the last symbol is in ALPH and is not 'z', the successor raises it and copies everything before it, symbols outside ALPH included (increment("1a") == "1b") |
| Legacy.BumpLast | erdi8.py:12-18 | a last symbol other than 'z' is replaced by the next symbol of ALPH, and the rest is kept |
| Legacy.EncodeInt | erdi8.py:21-29 | for dec >= 0: an identifier that decodes to dec; for dec < 0: the single symbol the remainder selects |
| Legacy.DecodeInt | erdi8.py:32-42 | the loop computes the string's number, -1 for the empty string |
| Legacy.RoundTrip | erdi8.py:21-42 | decode(encode(n)) == n, and encode(decode(s)) == s for every identifier s |
| Legacy.EncodeIntIsEncode | erdi8.py:21-29 | the recursive encoder equals the reference encoder |
| Legacy.IncrementIdentifier | erdi8.py:9-18 | the successor of the empty string or of a string that may start an identifier is an identifier |
| Legacy.IncrementShape | erdi8.py:9-18 | the successor keeps the length unless every symbol is 'z', and keeps the prefix before the raised symbol |
| Legacy.IncrementDecode | erdi8.py:9-18 | the successor of an identifier decodes to its number plus one and equals encode_int of that number |
| Legacy.IncrementIsEncode | erdi8.py:9-18 | increment of the empty string or of an identifier is the encoding of the next number |
| Legacy.IncrementTopRun | erdi8.py:15-16 | increment("z" * k) == "a" + "2" * k |
| Legacy.IncrementTimes | erdi8.py:9-18 | k increments add k to the value and keep identifiers identifiers |
| Legacy.CountingUp | erdi8.py:9-29 | k increments of encode_int(0) give encode_int(k) |
| Order.OrderMatches | erdi8/erdi8.py:105-119 | for two identifiers, decode_int's numbers compare as the identifiers do: a shorter one first, one of the same length by the rank of the first differing symbol |
| Order.LongerIsLarger | erdi8/erdi8.py:105-119 | a shorter identifier decodes to a smaller number |
| Order.SameLengthOrder | erdi8/erdi8.py:105-119 | for identifiers of one length that agree before index k and differ at k, the first is smaller exactly when its symbol at k has the lower rank |
| Order.DifferenceDecides | erdi8/erdi8.py:105-119 | for strings over the alphabet of one length, the first differing symbol decides which value is smaller, and the values differ |
| Order.NoRankBelow | erdi8/erdi8.py:105-119 | the first differing index is the only one that can decide the order |
| Order.FirstDifference | erdi8/erdi8.py:105-119 | two strings of one length agree up to the index returned and differ at it, unless it is their length |
| Legacy.EncodeZero | erdi8.py:21-29 | encode_int(0) == "a" |
| Legacy.IfaValue | erdi8.py:32-42 | "ifa" decodes to 9999 |
| Legacy.KnownValues | erdi8.py:9-29 | encode_int(0) == "a", and 9999 increments of "a" give "ifa" |
| Fancy.ModSpace | erdi8/erdi8.py:80-83 | a non-empty interval [mini, maxi] of naturals, and size == maxi - mini + 1 |
| Fancy.SpaceBounds | erdi8/erdi8.py:81-82 | mini is Hi(B, L-1) and maxi is Hi(B, L) - 1 |
| Fancy.SpaceOfLength | erdi8/erdi8.py:80-83 | a number is in the mod space of L exactly when its identifier has length L |
| Fancy.InSpace | erdi8/erdi8.py:80-83 | an identifier's number lies in the mod space of its length |
| Fancy.SpaceSize | erdi8/erdi8.py:83 | the size is (B - OFFSET) * B^(L-1) |
| Fancy.ThreeSymbolSpaces | erdi8/erdi8.py:83 | for three symbols the size is 25 * 33 * 33, and 20 * 28 * 28 in safe mode |
| Fancy.Step | erdi8/erdi8.py:84-85 | the stride mini + seed is coprime with the size, and the seed is at least the one given |
| Fancy.Next | erdi8/erdi8.py:86 | the next identifier has the same length, and its number is the current one moved by the stride inside the mod space |
| Fancy.OrbitWalk | erdi8/erdi8.py:86 | i applications of increment_fancy move the number i strides around the mod space |
| Fancy.FullCycle | erdi8/erdi8.py:77-86 | after size steps the identifier comes back; before that no identifier repeats, and every identifier of the length is visited |
| Coprime.CoprimeSeed | erdi8/erdi8.py:84-85 | the least seed >= the given one with gcd(mini + seed, space) == 1; every seed skipped fails |
| Coprime.SearchProgress | erdi8/erdi8.py:84-85 | every failed probe brings the seed one closer to a number congruent to 1, so the search ends |
| Coprime.OneModCoprime | erdi8/erdi8.py:84 | a number congruent to 1 modulo n is coprime with n |
| Coprime.Gcd | erdi8/erdi8.py:84 | Euclid's gcd on naturals (with Abs it is math.gcd); it is 0 exactly when both arguments are 0 |
| Coprime.Bezout | erdi8/erdi8.py:84 | the gcd is an integer combination of its arguments |
| Coprime.GcdDivides | erdi8/erdi8.py:84 | the gcd, when not 0, divides both arguments |
| Coprime.CommonDivides | erdi8/erdi8.py:84 | every common divisor of the arguments divides the gcd, so the gcd is the greatest common divisor |
| Coprime.WalkDistinct | erdi8/erdi8.py:86 | a stride coprime with n visits no number twice within n steps |
| Coprime.WalkReaches | erdi8/erdi8.py:86 | a stride coprime with n reaches every number of the range within n steps |
| Coprime.WalkReturns | erdi8/erdi8.py:86 | the walk is back at its start after n steps |

## Left out

- fasterid.py, fastid.py and setup.py are not part of this model. The tests
  call `mod_space`, `compute_stride`, `split_fancy_space` and
  `encode_four_bytes`, which are not in `erdi8/erdi8.py`; they are not part
  of this model either.
- The error messages `check` prints to stderr are left out, because they are
  output only. `check` is modelled by its boolean result.
- `alph_BAK` (erdi8/erdi8.py:32) is written and never read, so it is not a
  field of the model.
- Python's `None` is modelled as `Option`. The default argument
  `current=None` of `increment` is modelled as the empty string, because
  `not current` treats both the same way.
- Codec.Erdi8.IncrementFancy: requires a non-empty string. For "" the check
  passes, and the mod space has size 0. The source then divides by zero or
  never leaves the seed loop, so the model leaves that input out.
- Legacy.DecodeInt: requires every symbol to be in ALPH, because `decode_int`
  looks up every symbol in ALPH_MAP and raises KeyError on any other.
- Legacy.Increment: requires `CarryReads`: the last symbol and every symbol
  the carry reaches are in ALPH. Those are the only lookups `increment`
  makes (erdi8.py:12-16), so it raises KeyError on no other input. Symbols
  before them are copied unchecked, for example `increment("1a") == "1b"`.
  The KeyError itself is not modelled.
- On a string `check` rejects, the class's `increment` and `decode_int`
  return None (erdi8/erdi8.py:60-61, 106-107). The module-level functions
  compute a value or raise KeyError instead, for example
  `increment("2z") == "32"` and `decode_int("2") == -8`. The equality of the
  two codecs is proved only where `check` accepts.
- Python's `math.gcd(a, b)` is modelled as `Gcd(Abs(a), Abs(b))` on
  naturals.
- Python's `//` and `%` floor. Dafny's Euclidean `/` and `%` agree with them
  for the positive divisors used here. Integers are unbounded, as in Python.
- The class operations are proved for any alphabet that satisfies
  `Codec.Erdi8.Valid`: distinct symbols, more than OFFSET of them, and 'z'
  last. `Codec.Erdi8.Named` ties the instance to the two concrete alphabets.
- Codec.Erdi8.ModSpace and Codec.Erdi8.SeedSearch are lines 80-85 of
  `increment_fancy`, written as methods of their own.
- The tests expect `check` to raise ValueError on invalid input. The source
  returns False instead, and the model follows the source.
