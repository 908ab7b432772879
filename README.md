# GeoTrellis key index helper, in Dafny

This project models `Index`, the key-index helper of the GeoTrellis Python
Spark I/O layer (`geotrellis-python/geotrellis/spark/io/index/Index.py`). It
has two static methods:

- `encode(index, max_len)` writes an integer key index as its decimal string.
  It puts `'0'` characters in front until the string is `max_len` long. A
  string that is already that long or longer comes back unchanged, because
  Python's `'0' * n` is empty for `n <= 0`.
- `digits(x)` counts decimal digits by recursion. It returns 1 for every
  `x < 10`, negative values included. Otherwise it returns one more than
  `digits(x / 10)`, where `/` is Python 2's floor division.

The model has two modules, both pure functions and lemmas, like the source:

- `Decimal` (decimal.dfy) writes out Python's `str` on an integer
  (`IntToDecimal`, `NatToDecimal`), the one built-in conversion `encode` calls.
  It also holds reference definitions that the source never calls. The lemmas
  use them to state properties of the keys. They are: reading a numeral back
  (`ParseDecimal`, `ParseInt`), powers of ten (`Pow10`), and the string order
  of Python's `<` (`LexLess`).
- `Index` (index.dfy) holds `Encode`, `Digits` and `Zeros` (the `'0' * n`
  repetition), and the lemmas about them.

Negative indexes are modelled as the code handles them. The zeros go in front
of the minus sign, so `Encode(-5, 3)` is `"0-5"`. An unpadded negative key
still reads back as a signed integer. Once any zero is put in front of the
sign, it no longer does (`EncodeNegative`).

`EncodeOrder` is about non-negative indexes. For those, keys of one width sort
as strings in the same order as their indexes. We assume that this ordering is
why the keys are padded; the source does not say so.

## Model

| member | source | states |
|---|---|---|
| `Index.Encode` | geotrellis-python/geotrellis/spark/io/index/Index.py:4-7 | the key is `max(max_len, len(str(index)))` long; it ends with exactly `str(index)`; every character before that suffix is `'0'`; when `max_len <= len(str(index))` it is `str(index)` unchanged |
| `Index.Zeros` | geotrellis-python/geotrellis/spark/io/index/Index.py:6 | `'0' * n` has `max(n, 0)` characters, all of them `'0'` |
| `Index.Digits` | geotrellis-python/geotrellis/spark/io/index/Index.py:13-16 | the count is at least 1 for every integer, and it is exactly 1 if and only if `x < 10`, negatives included |
| `Index.DigitsBounds` | geotrellis-python/geotrellis/spark/io/index/Index.py:13-16 | for `x >= 1`, `10^(digits(x)-1) <= x < 10^digits(x)` |
| `Index.DigitsIsLeastWidth` | geotrellis-python/geotrellis/spark/io/index/Index.py:13-16 | for `x >= 0` and `k >= 1`, `x < 10^k` if and only if `digits(x) <= k`, so `digits(x)` is the least such width |
| `Index.DigitsMonotone` | geotrellis-python/geotrellis/spark/io/index/Index.py:13-16 | `x <= y` implies `digits(x) <= digits(y)`, negatives included |
| `Index.DigitsIsDecimalLength` | geotrellis-python/geotrellis/spark/io/index/Index.py:5-16 | for `x >= 0`, `digits(x) == len(str(x))` |
| `Index.EncodeAtDigitsWidth` | geotrellis-python/geotrellis/spark/io/index/Index.py:4-16 | for `x >= 0`, `encode(x, digits(x)) == str(x)` |
| `Index.EncodeFixedWidth` | geotrellis-python/geotrellis/spark/io/index/Index.py:4-16 | a non-negative index with at most `max_len` digits encodes to exactly `max_len` characters |
| `Index.EncodeRoundTrip` | geotrellis-python/geotrellis/spark/io/index/Index.py:4-7 | for `index >= 0`, reading the key back as a decimal numeral, leading zeros ignored, gives `index` |
| `Index.EncodeInjective` | geotrellis-python/geotrellis/spark/io/index/Index.py:4-7 | at one width, two indexes give the same key only if they are equal, negatives included |
| `Index.EncodeOrder` | geotrellis-python/geotrellis/spark/io/index/Index.py:4-16 | for non-negative indexes of at most `max_len` digits, one key is less than the other as a string exactly when its index is smaller |
| `Index.EncodeNegative` | geotrellis-python/geotrellis/spark/io/index/Index.py:5-7 | for a negative index, the `'-'` stays right after the padding zeros, and the key is not an unsigned decimal numeral. With no padding (`max_len <= len(str(index))`) the key reads back as a signed integer to `index`. With any padding it does not read back as an integer at all |
| `Index.EncodeNegativeExample` | geotrellis-python/geotrellis/spark/io/index/Index.py:5-7 | `encode(-5, 3) == "0-5"` |
| `Decimal.NatToDecimal` | geotrellis-python/geotrellis/spark/io/index/Index.py:5 | `str` of a non-negative integer is a non-empty string of digits, and it starts with `'0'` only for 0 (no leading zeros) |
| `Decimal.IntToDecimal` | geotrellis-python/geotrellis/spark/io/index/Index.py:5 | `str(index)` is non-empty; it starts with `'-'` exactly for negative values and with `'0'` exactly for 0; for non-negative values it is all digits |
| `Decimal.NatToDecimalRoundTrip` | geotrellis-python/geotrellis/spark/io/index/Index.py:5 | reading back `str(n)` gives `n` for every `n >= 0` |
| `Decimal.IntToDecimalRoundTrip` | geotrellis-python/geotrellis/spark/io/index/Index.py:5 | reading back `str(i)`, sign included, gives `i` for every integer |
| `Decimal.IntToDecimalInjective` | geotrellis-python/geotrellis/spark/io/index/Index.py:5 | distinct integers have distinct decimal strings |

## Left out

- The float branch of `digits` (Index.py:11-12) is left out. There, `int(x)` truncates a float toward zero before counting; the model takes integer arguments only.
- Arguments that are not integers are left out. Python's `encode` would pad `str` of any object, such as a string index; the model takes integers only.
- Python 2's `int`/`long` split is not modelled. Integers are unbounded, as they are in Python, and `str` writes both kinds the same way.
- Python's recursion limit on `digits` is not modelled. It only matters for numbers with hundreds of digits.
- `ParseDecimal` and `ParseInt` read only plain numerals, with an optional leading `'-'` in `ParseInt`. Python's `int` also accepts surrounding whitespace and a `'+'` sign. The model only needs to read back what `str` writes.
- `scripts/misc/get_ops.py` is not part of this model. It is a one-off documentation script made of file I/O, printing and string templating around `OperationsConstructor` from the `operation` module.
- `geotrellis-python/geotrellis/spark/io/avro/AvroRecordCodec.py` is not part of this model. Its methods are stubs returning `None` or calls into the external Avro library.
- `website/sidebars.js` is not part of this model. It is inert navigation data for a documentation-site generator and has no behaviour of its own.
