# base62 in Dafny

A model of the Go package `base62`. The package converts between non-negative
integers and strings over a 62-character alphabet. It has two pipelines, one
for `int64` and one for arbitrary-precision `*big.Int`, and both share one
`Encoding` object. That object holds the alphabet and a minimum output width
(`padding`).

- `radix.dfy` (module `Radix`) holds the arithmetic that specifies the
  pipelines: `Pow` (62^e, exact), `Digits(n)` (the base-62 digits of n, most
  significant first, empty for 0), and `Value(ds)` (the sum of
  `ds[i] * 62^(|ds|-1-i)`, built from the running total `PartialValue` that the
  decoders accumulate). It also proves that `Digits` and `Value` are inverse to
  each other, in both directions.
- `base62.dfy` (module `Base62`) is the package itself:
  - `Unpadded`, the string the encoders' division loop builds, defined step
    by step as the loop runs, and proved to spell `Digits(n)`;
  - the standard alphabet `EncodeStd`;
  - `IndexOf`, which stands for `strings.IndexRune`;
  - the error datatype `Error = Nil | InvalidCharacter(c, pos)`;
  - `Pad`, and the spec functions `Encoded`, `DecodedValue` and
    `FirstInvalid`;
  - the class `Encoding` (fields `encode` and `padding`), whose methods are the
    source's loops (`Option`, `EncodeInt64`, `EncodeBigInt`, `DecodeToInt64`,
    `MustDecodeToInt64`, `DecodeToBigInt`);
  - the class `BigCell`, a caller-owned `*big.Int` that `EncodeBigInt`
    overwrites.
- `properties.dfy` (module `Base62Properties`) states what the operations
  promise together: digit well-formedness, round trips (plain, padded, and the
  converse for canonical strings), leading zero digits, agreement of the two
  pipelines, and concrete values under the standard alphabet.

Behaviour worth knowing:
- Encoding 0, or any negative `int64` or non-positive big integer, yields `""`
  before padding, and so `padding` '0' characters when padding > 0. It does not
  yield the zero digit, because the loop runs only while `n > 0`.
- Padding uses the literal character `'0'`, not `encode[0]`. So the padded round
  trip is proved only for alphabets whose zero digit is `'0'`, as the standard
  alphabet's is.
- `Option` and `Padding` mutate the receiver in place and return it.
- `NewEncoding` accepts any string as the alphabet. The properties that need 62
  distinct characters say so in their `requires` (`ValidAlphabet`).

The encoders' loops divide only positive values, where Go's truncating `/`
and `%` agree with Dafny's Euclidean ones, so the model divides on `int`.

## Model

| member | source | states |
|---|---|---|
| Radix.Digits | base62.go:79-85 | the digits the encoder loop extracts from n: each in [0,62), no leading zero, and empty exactly when n is 0 |
| Radix.DigitsValue | base62.go:79-85 | the extracted digits, read positionally, give back n |
| Radix.ValueDigits | base62.go:169-174 | a digit sequence without a leading zero is exactly the digit sequence of its positional value, so the representation is unique |
| Radix.ValueAppend | base62.go:169-174 | appending digit d to a sequence turns its value v into 62*v + d |
| Radix.ValuePrepend | base62.go:169-174 | prepending digit d adds d * 62^(length of the rest) |
| Radix.ValueLeadingZeros | base62.go:169-174 | any number of leading zero digits leaves the value unchanged |
| Radix.ValueBounds | base62.go:169-174 | m digits in [0,62) have a value in [0, 62^m) |
| Radix.ValueLeading | base62.go:169-174 | m digits with a non-zero leading digit have a value of at least 62^(m-1) |
| Radix.PartialValue | base62.go:169-174 | the running total the decoders hold after k characters; it is never negative when every digit is in [0,62) |
| Radix.Value | base62.go:169-174 | the positional value of a whole digit sequence, the decoders' final total; never negative when every digit is in [0,62) |
| Radix.Pow | base62.go:173 | the positional weight 62^e, computed exactly, is at least 1, and at least 62 when e > 0 |
| Base62.IndexOf | base62.go:165 | the offset of the first occurrence of c in the alphabet, or -1 exactly when c does not occur |
| Base62.Indices | base62.go:164-165 | the IndexRune lookup of every character of s, one result per character |
| Base62.DecodedValue | base62.go:164-174 | the total both decoders accumulate for s; for a string over an alphabet of at most 62 characters it lies in [0, 62^len(s)) |
| Base62.FirstInvalid | base62.go:164-168 | the error both decoders return (`Error`, standing for `ErrInvalidCharacter` at base62.go:143): Nil exactly when every character is in the alphabet; otherwise the first character outside it, with its offset |
| Base62.FirstInvalidAt | base62.go:164-168 | a character outside the alphabet, with only alphabet characters before it, is the error reported |
| Base62.Pad | base62.go:219-227 | the result is s unchanged when s is at least minlen long; otherwise it is minlen long, ends with s and has '0' everywhere before it |
| Base62.Unpadded | base62.go:79-87 | the string the division loop builds: empty exactly when n <= 0, and made only of alphabet characters |
| Base62.Encoded | base62.go:87-91 | what both encoders return: at least `padding` characters, each an alphabet character or the padding '0' |
| Base62.UnpaddedSpell | base62.go:79-85 | for n > 0, the characters the division loop prepends spell the base-62 digits of n, most significant first |
| Base62.UnpaddedLoopStep | base62.go:81-85 | one loop step keeps the invariant: prepending the character of m%62 and continuing from m/62 builds the same string as continuing from m |
| Base62.BigCell.constructor | base62.go:96 | a caller-owned `*big.Int` holding the given value, which `EncodeBigInt` overwrites |
| Base62.Encoding.constructor | base62.go:31-36 | NewEncoding stores the alphabet unchecked, with padding 0 |
| Base62.Encoding.ApplyOption | base62.go:50-56 | applying Padding(n) sets padding to n and leaves the alphabet unchanged |
| Base62.Encoding.Option | base62.go:19-27 | options are applied in order to the same receiver, which is returned; the last Padding wins, and with no options padding is unchanged |
| Base62.Encoding.EncodeInt64 | base62.go:72-93 | the result is the spelled base-62 digits of n ("" when n <= 0), padded with '0' to padding when padding > 0 |
| Base62.Encoding.EncodeBigInt | base62.go:95-120 | the same string as EncodeInt64 for the same value; the caller's integer ends at 0 when it was positive and is unchanged otherwise |
| Base62.Encoding.DecodeToInt64 | base62.go:155-178 | the error is the first character outside the alphabet with its offset, and then the value is 0; otherwise the value is the sum of idx_i * 62^(len-1-i) |
| Base62.Encoding.MustDecodeToInt64 | base62.go:145-153 | for input that decodes without error, the value DecodeToInt64 returns |
| Base62.Encoding.DecodeToBigInt | base62.go:180-217 | on the first character outside the alphabet, nil and that character with its offset; otherwise a fresh integer holding the positional sum |
| Base62Properties.IndexOfDigit | base62.go:165 | in an alphabet of 62 distinct characters, looking up the character of digit d gives d |
| Base62Properties.IndicesOfSpell | base62.go:84 | reading back the characters that spell a digit sequence gives the digits |
| Base62Properties.SpellOfIndices | base62.go:164-174 | a string over the alphabet is the spelling of its own digit values, each in [0,62) |
| Base62Properties.EncodeNonPositive | base62.go:81-92 | a non-positive n encodes to "" without padding, and to padding '0' characters with it |
| Base62Properties.EncodeDigits | base62.go:79-85 | for n > 0 without padding, the characters decode to exactly the digits of n, and the first is never the zero digit |
| Base62Properties.RoundTrip | base62.go:79-85 | decoding the unpadded encoding of any n >= 0 succeeds and gives n |
| Base62Properties.IndicesOfPad | base62.go:219-227 | each '0' that Pad adds reads as a zero digit when '0' is the alphabet's zero digit |
| Base62Properties.PaddedRoundTrip | base62.go:86-91 | with any padding, decoding the encoding of n gives n when the zero digit is '0' |
| Base62Properties.CanonicalRoundTrip | base62.go:164-177 | a string over the alphabet with no leading zero digit is the encoding of its decoded value |
| Base62Properties.LeadingZeroCharacters | base62.go:164-177 | leading zero-digit characters change neither the decoded value nor whether decoding succeeds |
| Base62Properties.DecodeEmpty | base62.go:164-177 | the empty string decodes to 0 without error |
| Base62Properties.StdCodes | base62.go:29 | the standard alphabet `EncodeStd` is 0-9, then A-Z, then a-z |
| Base62Properties.StdAlphabetValid | base62.go:29 | the standard alphabet has 62 distinct characters |
| Base62Properties.RoundTripInt64 | base62.go:72-178 | EncodeInt64 followed by DecodeToInt64 returns n with no error, for 0 <= n < 2^63 and any alphabet of 62 distinct characters; under padding the alphabet's zero digit must be '0', because `pad` fills with '0' |
| Base62Properties.RoundTripBigInt | base62.go:95-217 | EncodeBigInt followed by DecodeToBigInt returns n with no error, for every n >= 0 and any alphabet of 62 distinct characters; under padding the alphabet's zero digit must be '0', because `pad` fills with '0' |
| Base62Properties.SameEncoding | base62.go:72-120 | EncodeInt64 and EncodeBigInt return the same string for the same value |
| Base62Properties.SameDecoding | base62.go:155-217 | DecodeToInt64 and DecodeToBigInt report the same error, and the same value when there is none |
| Base62Properties.StdEncodeZero | base62.go:81-90 | under the standard alphabet 0 encodes to "", and to "000" with padding 3 |
| Base62Properties.StdEncode61 | base62.go:79-85 | 61 encodes to "z" |
| Base62Properties.StdEncode62 | base62.go:79-90 | 62 encodes to "10", and to "010" with padding 3 |
| Base62Properties.Digits12345 | base62.go:79-85 | the loop extracts the digits 3, 13, 7 from 12345 |
| Base62Properties.StdEncode12345 | base62.go:79-85 | 12345 encodes to "3D7" |
| Base62Properties.StdDecode10 | base62.go:164-177 | "10" decodes to 62 |
| Base62Properties.StdDecodeInvalid | base62.go:164-168 | "1A!2" fails with '!' at offset 2 |
| Base62Properties.EncodePow | base62.go:106-112 | 62^k encodes to the digit one followed by k zero digits |
| Base62Properties.StdEncodePow | base62.go:106-112 | under the standard alphabet 62^k encodes to "1" followed by k "0", for every k (62^20 and beyond lie past int64) |

## Left out

- Base62.Encoding.DecodeToInt64: requires that the value fits in int64 (below 2^63) whenever every character is in the alphabet. Under that condition the source neither wraps nor rounds: `math.Pow(62, p)` is exact for the powers that carry a non-zero digit, and the other products are 0. Longer values make the source wrap around in int64 or convert an out-of-range float, and the model does not reproduce either.
- Base62.Encoding.MustDecodeToInt64: the `panic` on a decoding error is a precondition that decoding succeeds, and the same int64 bound applies.
- Base62.Encoding.EncodeInt64: requires at least 62 alphabet characters. The source indexes `encode[rem]` and panics when a remainder falls past a shorter alphabet; the model does not reproduce the panic.
- Base62.Encoding.EncodeBigInt: requires at least 62 alphabet characters, for the same reason.
- The package-level wrappers (`EncodeInt64`, `EncodeBigInt`, `DecodeToInt64`, `MustDecodeToInt64`, `DecodeToBigInt` on `StdEncoding`), `NewStdEncoding` and the global `StdEncoding`: they only delegate to the methods with the standard alphabet, through shared global state. `EncodeStd` is modelled and used for the concrete values.
- The error message text and the `fmt.Errorf` wrapping in `ErrInvalidCharacter`: the error is the datatype `InvalidCharacter(c, pos)`.
- The `fmt.Sprint`/`fmt.Sprintf`/`strconv.Itoa` formatting inside `pad`: its result is modelled directly as '0' characters followed by s, as the doc comment of `Padding` describes.
- UTF-8: strings are sequences of characters. Offsets are character indices, which equal the source's byte offsets only for ASCII input and ASCII alphabets.
- `big.Int` internals: a big integer is an unbounded `int`. The caller's integer in `EncodeBigInt` is a `BigCell` object. The temporaries of `DecodeToBigInt` (`c`, `idx`, `power`, `exp`) are local values.
- Options other than `Padding`: `Option` takes callbacks of type `func(*Encoding)`, and a caller outside the package can pass any function literal of that type, since the unnamed type is assignable to `option`. Such a callback can change the receiver arbitrarily, the alphabet included. The model covers only the options the package itself builds, through `Padding`, as the datatype `EncodingOption = Padding(n)`.
