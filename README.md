# passGen in Dafny

A model of the core of passGen, a command-line password generator written in
Go. The generator has two steps:

- the **charset builder** (`generateCharset`) turns four toggles into a byte
  sequence. It does this by concatenating fixed inclusive ASCII ranges in a
  fixed order: upper case 65–90, lower case 97–122, digits 48–57, then the
  symbols as the four runs 33–47, 58–64, 91–96 and 123–126;
- the **password sampler** (`generatePassword`) first checks the request. The
  length must be at least 8, and this is checked before the charset must be
  non-empty. It then fills a buffer of `length` bytes, each taken from the
  charset at an index drawn from the secure random source.

`charset.dfy` (module `Charset`) holds the builder. `GenerateCharset` collects
the selected ranges, in the Go code's order, and `ExpandRanges` runs the
Go code's nested expansion loop over them. `ExpandRanges` is proved to return
`Flatten(ranges)`: the ranges' byte expansions (`Span`) concatenated.
`GenerateCharset` is proved to return the specification function
`ExpectedCharset`, which is `Flatten` of the selected ranges. The charset's properties are
lemmas about `ExpectedCharset`: its exact layout, its length, when it is
empty, which bytes it holds (against an independent description of the
character classes), that no byte repeats, and that every byte is printable
ASCII.

`password.dfy` (module `Password`) holds the sampler. The secure random
source is a parameter: a function from (number of the draw, bound) to a
`Draw`, which is an index or a failure. Its only assumed property,
`DrawsInRange`, is the contract of `crypto/rand.Int`: for a positive bound
`n`, a draw either fails or yields an index in `[0, n)`. `GeneratePassword`
writes into an `array` buffer in a loop, as the Go code does. `Generate` is the
composition that the command line performs (`main.go:92-94`).

Two behaviours of the code that the model keeps as they are:

- The random source's failure is passed on unchanged (`RandomSource(cause)`).
  It is not turned into an error of the generator's own.
- A valid request can still fail, because any draw can fail. Success therefore
  requires every draw to succeed.

## Model

| member | source | states |
|---|---|---|
| `Charset.SelectedRanges` | main.go:17-35 | The selected ranges are well formed and come in the Go code's append order: upper case, lower case, digits, then the four symbol runs, each present exactly when its toggle is set (the count and the position of every range are fixed). |
| `Charset.GenerateCharset` | main.go:14-44 | The result is exactly the selected ranges expanded and concatenated. The order is upper, lower, digits, then the four symbol runs. |
| `Charset.ExpandRanges` | main.go:37-41 | The nested loop returns the concatenation of every range's bytes, range by range, each range ascending from `from` to `to`. |
| `Charset.Span` | main.go:38-39 | One range's expansion has `to - from + 1` bytes, and its k-th byte is `from + k`. |
| `Charset.FlattenAppend` | main.go:37-41 | Expanding two lists of ranges one after the other gives the two expansions concatenated. |
| `Charset.FlattenMember` | main.go:37-41 | A byte occurs in the expansion of a list of ranges exactly when it lies inside one of the ranges. |
| `Charset.FlattenDistinct` | main.go:37-41 | Pairwise non-overlapping ranges expand to a sequence with no repeated byte. |
| `Charset.SelectedDisjoint` | main.go:19-35 | The ranges selected by any combination of toggles never overlap. |
| `Charset.CharsetLayout` | main.go:19-41 | For each toggle in turn, the charset holds that toggle's bytes when it is set and nothing when it is not. |
| `Charset.SymbolBytes` | main.go:28-34 | The four symbol runs hold 32 bytes: exactly the printable non-space characters that are not letters or digits. |
| `Charset.CharsetSize` | main.go:19-41 | The charset has 26·[upper] + 26·[lower] + 10·[number] + 32·[symbol] bytes. |
| `Charset.CharsetEmpty` | main.go:14-43 | The charset is empty if and only if all four toggles are false. |
| `Charset.CharsetMember` | main.go:19-41 | A byte is in the charset if and only if some set toggle admits its character class. |
| `Charset.CharsetDistinct` | main.go:19-41 | No byte occurs twice in the charset. |
| `Charset.CharsetPrintable` | main.go:20-39 | Every byte of the charset lies in 33..126 (printable ASCII), so none is the space 32. |
| `Charset.FullCharset` | main.go:19-41 | With all toggles set the charset has 94 bytes and holds exactly the printable ASCII characters other than space. |
| `Charset.UpperOnly` | main.go:19-20 | With upper case alone the charset is 'A' through 'Z' in ascending order (26 bytes). |
| `Password.GeneratePassword` | main.go:46-65 | A length below 8 fails with the length error, whose text is "minimum length is 8", whatever the charset. Otherwise an empty charset fails with the charset error, whose text is "illegal choices". Otherwise the result succeeds exactly when all `length` draws succeed. It then has `length` bytes, byte i is `charset[draw i]`, every byte is in the charset, and a one-byte charset gives `length` copies of that byte. If a draw fails, the error is the first failing draw's own error, its text passed on unchanged, and no password is returned. |
| `Password.Generate` | main.go:92-94 | End to end: a short length fails first, with the text "minimum length is 8". With no toggle set and a valid length the charset error, "illegal choices", is returned. The run succeeds exactly when the length is valid, some toggle is set and all `length` draws over the built charset succeed; otherwise the error is the first failing draw's own. A password has the requested length, byte i is the built charset's byte at the index of draw i, and every byte is printable and of a selected class. |

## Left out

- `main`'s flag parsing (`pflag`), help text, printing and exit status are not modelled. They are I/O over a library outside this code. Only the composition of the two steps (`main.go:92-94`) is kept, as `Password.Generate`.
- The internals of `crypto/rand` and `math/big`. The random source is a parameter constrained only by `rand.Int`'s range contract. Uniformity and the absence of modulo bias are probabilistic properties and are not stated.
- Go's `int64` conversions of the charset length and the drawn index are not modelled. The charset has at most 94 bytes, so these values stay small and are plain integers here.
- Go's truncating `byte(i)` conversion is not modelled. Every range the code uses lies within 0..255 and is non-empty, and the model requires this of its ranges (`WellFormed`), so no truncation ever occurs.
- The empty string that Go returns beside an error is represented by `Err`, which carries no password. The error texts ("minimum length is 8", "illegal choices") are given by `Password.Message` and stated in the contract of `Password.GeneratePassword`.
