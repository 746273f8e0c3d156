# furigana.rs — a verified model of its ruby-markup parser

The repository holds a small parser for HTML-style ruby (furigana) markup,
written with nom combinators in `src/main.rs`. This project models it in
Dafny and proves what it accepts and what it returns.

- `combinators.dfy`, module `Combinators`: the two combinators the grammar is
  built from. `Tag` models `tag` and `TakeWhile1` models `take_while1` on
  complete input. `IResult<T>` is `Ok(rest, value)` or `Fail`.
- `furigana.dfy`, module `Furigana`: the source's `Element` enum, the
  character classifier `is_japanese` (`IsJapanese`), the run scanner
  `alphanumeric` (`Alphanumeric`), and the rules `rt` (`Rt`) and `ruby`
  (`Ruby`). Each rule is a pure function that returns `Ok(rest, value)` or
  `Fail`. A failing step fails the whole rule and leaves no partial value.

The grammar the code implements is `<ruby><rt>READING</ruby>TRAILING`.
READING and TRAILING are non-empty runs of characters from seven code-point
blocks: CJK symbols, CJK unified ideographs, compatibility ideographs,
extension A, radicals, hiragana and katakana. `Ruby` returns
`Element.Ruby(map[TRAILING := RubyText(READING)])`.

Three consequences of how the code is written:

- The code has no base-text slot: `rt` is tried right after `<ruby>`
  (src/main.rs:15, 22), so input with base text fails
  (`RubyRejectsTextBeforeRt`).
- A span is stored as a `HashMap` holding one entry (src/main.rs:16-17). The
  model keeps the map, and `Ruby` states that the result has exactly one
  entry, whose value is a `RubyText` (`WellFormed`).
- The code parses one span at a time; it has no loop over a document and no
  function that prints a span back. The ghost function `Markup` only states
  the surface form used by the lemmas; it is not an operation of the program.

Strings are `seq<char>`. Dafny's `char` is a Unicode scalar value, like Rust's
`char`, so the seven ranges carry over unchanged.

## Model

| member | source | states |
|---|---|---|
| `Combinators.PrefixLength` | src/main.rs:27 | The greedy scan behind `take_while1` stops at a length `n` such that every character before `n` satisfies the predicate, and the input ends at `n` or its character at `n` fails the predicate |
| `Combinators.TakeWhile1` | src/main.rs:27 | `take_while1(p)` succeeds exactly when the first character satisfies `p`. On success it returns a non-empty all-`p` run and the rest, the run followed by the rest is the input, and the rest is empty or starts with a character failing `p` |
| `Combinators.PrefixLengthOfRun` | src/main.rs:27 | For a run of `p` followed by a stopping point, the scan length is exactly the run's length |
| `Combinators.TakeWhile1Unique` | src/main.rs:27 | Maximal munch fixes the split: for a non-empty run of `p` followed by a stopping point, `take_while1` returns exactly that run and that rest |
| `Combinators.Tag` | src/main.rs:15 | `tag(t)` succeeds exactly when the input starts with `t`. It then returns `t`, and the rest is what follows `t` |
| `Combinators.TagShortens` | src/main.rs:15 | A non-empty tag that matches leaves a strictly shorter rest |
| `Furigana.IsJapanese` | src/main.rs:30-41 | One inclusive range test per match arm, in source order. The result is true exactly when `c` lies in one of the seven blocks of the table `JapaneseBlocks`, which lists the same ranges as pairs of ends |
| `Furigana.BlockBoundaries` | src/main.rs:32-38 | Each block's minimum and maximum are accepted. The code point just below each minimum and just above each maximum is rejected |
| `Furigana.AsciiIsNotJapanese` | src/main.rs:30-40 | No ASCII character is Japanese, so `<`, `/`, `>` and the tag letters never extend a run |
| `Furigana.DouIsJapanese` | src/main.rs:48-51 | The kanji 同 is accepted |
| `Furigana.Alphanumeric` | src/main.rs:26-28 | `alphanumeric` succeeds exactly when the input starts with a Japanese character. On success the run is non-empty and all-Japanese, the run followed by the rest is the input, the rest is empty or starts with a non-Japanese character, and the rest is strictly shorter |
| `Furigana.AlphanumericUnique` | src/main.rs:26-28 | A non-empty Japanese run followed by the end of input or a non-Japanese character is parsed back as exactly that run and that rest |
| `Furigana.TagEndsRun` | src/main.rs:15 | Input that starts with a tag (`<`...) is a point where a run stops |
| `Furigana.Rt` | src/main.rs:21-24 | `rt` succeeds exactly when the input starts with `<rt>` immediately followed by a Japanese character. On success it yields `RubyText(s)` with `s` a non-empty Japanese run, `<rt>` + `s` + rest is the input, the rest does not continue the run, and the rest is strictly shorter |
| `Furigana.RtRoundTrip` | src/main.rs:21-24 | `<rt>` followed by a maximal run `s` and then `rest` parses to `Ok(rest, RubyText(s))` |
| `Furigana.RtExample` | src/main.rs:53-58 | `rt("<rt>どう")` is `Ok("", RubyText("どう"))` |
| `Furigana.Ruby` | src/main.rs:14-19 | On success `ruby` returns a `Ruby` (never a `RubyText`) whose map has exactly one entry, whose value is a `RubyText`. The rest is strictly shorter than the input |
| `Furigana.RubySound` | src/main.rs:14-18 | A successful `ruby` parse means the input is `<ruby><rt>` + R + `</ruby>` + T + rest, with R and T non-empty Japanese runs and rest not continuing T. The result is `Ruby({T ↦ RubyText(R)})` |
| `Furigana.RubyRoundTrip` | src/main.rs:14-24 | For non-empty Japanese runs R and T, and a rest that is empty or starts with a non-Japanese character, `ruby("<ruby><rt>" + R + "</ruby>" + T + rest)` is `Ok(rest, Ruby({T ↦ RubyText(R)}))` |
| `Furigana.RubyAcceptsExactlySpans` | src/main.rs:14-24 | `ruby` succeeds if and only if the input begins with one well-formed span |
| `Furigana.RubyRejectsTextBeforeRt` | src/main.rs:15 | Input starting with `<ruby>` and then anything other than `<` fails as a whole, since `rt` comes directly after `<ruby>` |
| `Furigana.RubyRejectsUnclosedReading` | src/main.rs:15 | If the reading is not followed by `</ruby>`, the whole rule fails |
| `Furigana.RubyRejectsMissingTrailing` | src/main.rs:15 | If no Japanese text follows `</ruby>`, the whole rule fails |
| `Furigana.RubyRejectsBaseKanjiExample` | src/main.rs:15 | `ruby("<ruby>同<rt>どう</ruby>ぜず。")` fails |
| `Furigana.RubyExample` | src/main.rs:14-19 | `ruby("<ruby><rt>どう</ruby>ぜず。")` is `Ok("", Ruby({ぜず。 ↦ RubyText(どう)}))` |

## Left out

- `main` (src/main.rs:61-63) only prints a greeting. That is I/O with no logic.
- The library's error values (`Err::Error`, `Err::Incomplete`, error kinds) become one `Fail`. No code in the repository inspects them.
- `HashMap` hashing and iteration order. A one-entry map has only its single key and value to observe, and Dafny's `map` keeps both.
- UTF-8 byte offsets and `&str` slicing. The input is a sequence of code points, which is what `tag` and `take_while1` on `&str` compare.
- A document scanner over many spans, a serializer, and a base-kanji slot before `<rt>`. The source has none of them, so there is nothing to model.
