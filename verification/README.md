# mackerel-plugin-mastodon: the counter extraction, in Dafny

The plugin reads the public "about/more" page of a Mastodon server and reports
three counters: `user_count`, `toot_count` and `instance_count`. This project
models the extraction in `lib/mastodon.go`:

- `parseCount`: removes every thousands separator `,` from a counter text and
  parses the rest as a number (`CountParser.StripCommas`, `CountParser.ParseCount`);
- `parseStats`: walks the fixed key list `user_count`, `toot_count`,
  `instance_count` and the matches of the page's XPath query side by side. It
  stops without error when the matches run out. It never reads a fourth match.
  It fails, dropping the map built so far, on the first text that is not a
  number (`Mastodon.ParseStats`, a loop over a match iterator `Mastodon.MatchIter`);
- `MetricKeyPrefix`: the configured prefix, `"mastodon"` by default.

`ParseStats` is proved equal to the specification function `Mastodon.Extract`.
The lemmas about `Extract` state what a caller gets for every page: the key set,
the value stored under each key, when the call fails and with which error, and
that extra matches change nothing. The count parser has a round-trip partner:
a counter rendered with thousands separators (`CountParser.Thousands`) parses
back to itself.

Files:

- `wrappers.dfy`: `Option`, `Result` and the two errors, `UnparsableDocument`
  and `MalformedNumber(num)`;
- `decimal.dfy`: a decimal parser standing in for `strconv.ParseFloat`;
- `count_parser.dfy`: `parseCount`;
- `mastodon.dfy`: the plugin value, `MetricKeyPrefix`, the match iterator,
  `parseStats` and its lemmas.

Inputs that come from libraries are parameters. The HTML parse and the XPath
query `//*[@class='information-board']/*[@class='section']/strong` become an
`Option<seq<string>>`. `None` stands for a page that does not parse. `Some(texts)`
holds the text of every matched node, in document order.

## Model

| member | source | states |
|---|---|---|
| `CountParser.StripCommas` | lib/mastodon.go:98 | the text handed to the number parser holds no `,` and is no longer than the input |
| `CountParser.StripCommasCounts` | lib/mastodon.go:98 | every character other than `,` occurs in the result as often as in the input, and `,` never does |
| `CountParser.StripCommasAppend` | lib/mastodon.go:98 | removal distributes over concatenation, so the kept characters stay in input order |
| `CountParser.StripCommasNoComma` | lib/mastodon.go:98 | a text without `,` passes through unchanged |
| `CountParser.StripCommasIdempotent` | lib/mastodon.go:98 | removing the separators twice is the same as removing them once |
| `CountParser.ParseCount` | lib/mastodon.go:97-100 | a failed parse reports the comma-free text that was handed to the number parser |
| `CountParser.ParseCountIgnoresCommas` | lib/mastodon.go:97-100 | the outcome for a text equals the outcome for that text without separators |
| `CountParser.ParseCountRejectsStray` | lib/mastodon.go:97-100 | with the plain-decimal number parser, a text with any character other than a digit, sign, point or `,` is a malformed number (Go's `ParseFloat` also accepts some letters, as in `"1e3"`, `"Inf"`, `"NaN"`) |
| `CountParser.ParseCountRejectsTwoPoints` | lib/mastodon.go:97-100 | a text with two decimal points is a malformed number, wherever its separators are |
| `CountParser.ParseCountExampleTwoPoints` | lib/mastodon.go:97-100 | `"1.2.3"` fails with the error naming `"1.2.3"` |
| `CountParser.ParseCountThousands` | lib/mastodon.go:97-100 | every natural number rendered with thousands separators parses back to itself |
| `CountParser.ParseCountExampleMillions` | lib/mastodon.go:97-100 | `"1,234,567"` parses to 1234567 |
| `CountParser.ParseCountExampleMalformed` | lib/mastodon.go:97-100 | `""` fails, and `"abc"` fails with the error naming `"abc"` |
| `CountParser.ParseCountExampleThousands` | lib/mastodon.go:97-100 | `"12,345"` parses to 12345 |
| `CountParser.ParseCountExampleHundreds` | lib/mastodon.go:97-100 | `"678"` parses to 678 |
| `CountParser.ParseCountExampleUnits` | lib/mastodon.go:97-100 | `"9"` parses to 9 |
| `Decimal.ParseNum` | lib/mastodon.go:99 | stands for `strconv.ParseFloat` on plain decimals; the empty text is rejected; `ParseNumOfDigits`, `ParseNumDecimalDigits`, `ParseNumAlphabet` and `ParseNumTwoPoints` describe it |
| `Decimal.ParseNumTwoPoints` | lib/mastodon.go:99 | a decimal with two points is rejected, signed or not |
| `Decimal.ParseNumOfDigits` | lib/mastodon.go:99 | a non-empty string of digits parses to its decimal value |
| `Decimal.ParseNumDecimalDigits` | lib/mastodon.go:99 | the decimal rendering of a natural number parses back to that number |
| `Decimal.ParseNumAlphabet` | lib/mastodon.go:99 | what the number parser accepts is non-empty and made of digits, signs and points only, so never holds `,` |
| `Mastodon.MetricKeyPrefix` | lib/mastodon.go:53-58 | the prefix is never empty: the configured prefix when there is one, `"mastodon"` otherwise |
| `Mastodon.Extract` | lib/mastodon.go:72-95 | what `parseStats` returns for a page: the `UnparsableDocument` error exactly when the page does not parse; `StatsSucceedsIff`, `StatsFirstError`, `StatsContents`, `StatsMissing` and `StatsIgnoresExtra` describe the rest |
| `Mastodon.ExtractFrom` | lib/mastodon.go:84-92 | the rest of the loop from a given point: a success keeps every key already stored, and a failure is always a `MalformedNumber`; `ExtractFromSucceeds`, `ExtractFromFirstError`, `ExtractFromKeys`, `ExtractFromValues` and `ExtractFromIgnoresExtra` describe it fully |
| `Mastodon.MatchIter.constructor` | lib/mastodon.go:80 | a fresh iterator over the matched texts has consumed nothing |
| `Mastodon.MatchIter.Next` | lib/mastodon.go:85 | advancing succeeds exactly when a match is left, and consumes exactly that one match |
| `Mastodon.MatchIter.Node` | lib/mastodon.go:88 | the text of the current node, which is one of the matched texts |
| `Mastodon.ParseStats` | lib/mastodon.go:72-95 | the result is `Extract(doc)`; an unparsable page fails with no map; at most `min(matches, 3)` matches are consumed, and on success exactly that many |
| `Mastodon.ExtractFromSucceeds` | lib/mastodon.go:84-91 | the loop succeeds exactly when every match it consumes parses |
| `Mastodon.ExtractFromFirstError` | lib/mastodon.go:88-91 | a failure carries the error of the first consumed match that does not parse |
| `Mastodon.ExtractFromKeys` | lib/mastodon.go:82-88 | on success the key set is the old one plus the key at the position of every consumed match |
| `Mastodon.ExtractFromValues` | lib/mastodon.go:84-88 | with distinct keys, each consumed match is stored parsed under the key at its position, and other entries are kept |
| `Mastodon.ExtractFromIgnoresExtra` | lib/mastodon.go:84-87 | matches beyond the number of keys do not change the result |
| `Mastodon.MetricKeysDistinct` | lib/mastodon.go:82 | the three metric names are different |
| `Mastodon.KeyPrefix` | lib/mastodon.go:82 | the first `n` metric names are `n` different names, and the `i`-th is among them exactly when `i < n` |
| `Mastodon.StatsSucceedsIff` | lib/mastodon.go:84-94 | a page yields a map exactly when each of its first `min(matches, 3)` texts parses |
| `Mastodon.StatsFirstError` | lib/mastodon.go:88-91 | a failure on a parsed page is a `MalformedNumber` from the first of the first three texts that does not parse, even though earlier counts were already stored |
| `Mastodon.StatsContents` | lib/mastodon.go:82-88 | on success the keys are exactly the first `min(matches, 3)` metric names, and the `i`-th holds the parse of the `i`-th match |
| `Mastodon.StatsMissing` | lib/mastodon.go:84-87 | on success a metric name is missing exactly when the page has no match at its position, and the map has `min(matches, 3)` entries |
| `Mastodon.StatsIgnoresExtra` | lib/mastodon.go:84-87 | once there are three matches, more matches change nothing |
| `Mastodon.StatsNoMatches` | lib/mastodon.go:73-94 | a page with no match yields the empty map and no error |
| `Mastodon.StatsOneMatch` | lib/mastodon.go:84-94 | one well-formed match yields a map with only `user_count` |
| `Mastodon.StatsThreeMatches` | lib/mastodon.go:84-94 | three well-formed matches yield all three counters, in key order |
| `Mastodon.StatsSecondMalformed` | lib/mastodon.go:84-91 | a malformed second match fails the call with its error, although the first parsed |
| `Mastodon.StatsSamplePage` | lib/mastodon.go:72-100 | the page `"12,345"`, `"678"`, `"9"` yields 12345, 678 and 9 |

## Left out

- `FetchMetrics` (lib/mastodon.go:61-70): the HTTPS GET of `https://<host>/about/more` and closing the body are network I/O.
- `Do` (lib/mastodon.go:103-114): flag parsing and handing control to the mackerel plugin helper.
- `graphdef` and `GraphDefinition` (lib/mastodon.go:16-50): static labels and units with no behaviour.
- HTML parsing and XPath evaluation (`xmlpath.ParseHTML`, `path.Iter`, `iter.Node().String()`): foreign library calls. Their outcome is an input, `None` or the matched texts in document order; `MatchIter` only replays those texts.
- `Decimal.ParseNum` accepts only the plain decimal forms of `strconv.ParseFloat`: an optional sign, digits and at most one point. Exponents, `Inf`/`NaN`, hexadecimal floats and underscores are rejected although `ParseFloat` accepts some of them.
- `Decimal.ParseNum` yields an exact `real`, so float64 rounding and the range error `ParseFloat` reports for too-large values are not modelled.
- `CountParser.ParseCount` keeps only the `Num` field of Go's `strconv.NumError`; the function name and the underlying cause are dropped.
- `Mastodon.ParseStats`: Go stores the parser's fallback value under the key before it checks the error. That map is dropped on failure either way, so the model stores a value only after a successful parse.
- The map values are `interface{}` holding `float64` in Go; the model uses `map<string, real>`.
- `Mastodon.MetricKeyPrefix`: Go writes the default into the receiver's copy. In Dafny the plugin is a value, so the caller's plugin being unchanged holds trivially and is not stated separately.
- Calling the extraction twice on the same page gives the same result because `Extract` is a function. No separate lemma states this.
