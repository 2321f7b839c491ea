# SecurePrompt decision core in Dafny

SecurePrompt is a prompt firewall for language-model applications. The pipeline
(`SecurePromptPipeline`) scores every user prompt before the model sees it and
checks every model response before the user sees it. This project models that
decision logic as pure Dafny functions and proves what it promises.

Input side:
- Three string heuristics run on the prompt: the keyword blocklist, the regex
  rule engine, and the Base64/hex obfuscation detector.
- They collapse into a 0/1 heuristic score.
- The language-model perplexity is squashed into [0, 1].
- The classifier probability is taken as it is.
- The weighted sum `0.2 h + 0.3 p + 0.5 b` blocks the prompt when it is at
  least 0.5.

Output side:
- The leakage monitor looks for its canary token and then for four PII/secret
  patterns.
- The policy enforcer then looks for banned phrases.
- The first detector that fires blocks the response.

Three analysis components sit beside the pipeline: the z-score drift detector
over a sliding window, the swap/delete mutation generator, and the
character-entropy and word-count statistics.

One module per source component:

| file | module | models |
|---|---|---|
| `first_match.dfy` | `FirstMatch` | the ordered first-match scan every string detector shares; `Option`, `Detection` |
| `text.dfy` | `Text` | `str.isspace`, `str.lower` (ASCII), `str.strip`, `str.isprintable`, substring search |
| `keyword_filter.dfy` | `KeywordFilter` | `src/filters/keyword_filter.py` |
| `regex_filter.dfy` | `RegexFilter` | `src/filters/regexfilters.py` |
| `base64.dfy` | `Base64` | `base64.b64decode(s, validate=True)` and `b64encode` (section 4 of RFC 4648) |
| `hex.dfy` | `Hex` | `_is_hex`, `bytes.fromhex` and `bytes.hex` (section 8 of RFC 4648) |
| `utf8.dfy` | `Utf8` | strict `bytes.decode('utf-8')` and `str.encode('utf-8')` |
| `encoding_check.dfy` | `EncodingCheck` | `src/filters/encoding_check.py` |
| `leakage.dfy` | `Leakage` | `src/monitors/leakage.py` |
| `policy.dfy` | `Policy` | `src/monitors/policy.py` |
| `pipeline.dfy` | `Pipeline` | `src/monitors/integration.py` |
| `drift_detector.dfy` | `DriftDetector` | `src/analysis/drift_detector.py` |
| `divergence.dfy` | `Divergence` | `mutate_input` of `src/analysis/divergence.py` |
| `statistical.dfy` | `Statistical` | `src/analysis/statistical.py` |

Parts of the system that are nondeterministic or external become parameters:
- The perplexity model and the BERT classifier are functions `string -> real`, passed to `Pipeline.ScanInput`.
- `np.sqrt` is a function parameter; `DriftDetector.IsSquareRoot` says which functions qualify.
- `math.log2` is a function parameter; `Statistical.IsLog2Like` says what the entropy lemmas need of it.
- The eight `random.choice` draws of the canary are indices into the canary alphabet.
- The `random.randint`/`random.choice` pair of each mutation step is a `Divergence.Choice` in an oracle sequence. The drawn index is taken modulo the current length, which covers exactly the values `randint(0, len - 1)` can return.

## Model

| member | source | states |
|---|---|---|
| `FirstMatch.First` | src/filters/keyword_filter.py:19-22 | the index returned satisfies the test and no earlier element does; none is returned iff no element satisfies it |
| `FirstMatch.FirstCongruent` | src/monitors/policy.py:21-23 | two tests that agree on every element pick the same first match |
| `Text.LowerIdempotent` | src/filters/keyword_filter.py:18 | lowering a lowered text changes nothing |
| `Text.TrimStart` | src/filters/encoding_check.py:17 | the result is a suffix that does not start with whitespace, and everything dropped is whitespace |
| `Text.TrimEnd` | src/filters/encoding_check.py:17 | the result is a prefix that does not end with whitespace, and everything dropped is whitespace |
| `Text.Strip` | src/filters/encoding_check.py:17 | the stripped text occurs in the input at a position where everything before it and everything after it is whitespace, and neither of its ends is whitespace |
| `Text.StripUnchanged` | src/filters/encoding_check.py:17 | a text with non-whitespace ends is its own strip |
| `KeywordFilter.Scan` | src/filters/keyword_filter.py:17-22 | it fires iff some blocklist entry occurs in the lowered text; the keyword returned is in the list, occurs in the lowered text, and no earlier entry fires; otherwise the result is `(False, None)` |
| `KeywordFilter.BlocklistIsLower` | src/filters/keyword_filter.py:3-16 | every blocklist entry is already lower case |
| `KeywordFilter.ScanIsCaseInsensitiveMatch` | src/filters/keyword_filter.py:17-20 | lowering only the text is the same as comparing entry and text with case ignored on both sides |
| `KeywordFilter.ScanIgnoresCase` | src/filters/keyword_filter.py:18 | scanning a text and scanning its lowered form give the same verdict and keyword |
| `KeywordFilter.ShoutedPhraseIsCaught` | src/filters/keyword_filter.py:4 | "IGNORE PREVIOUS INSTRUCTIONS" is caught as the first entry |
| `RegexFilter.Scan` | src/filters/regexfilters.py:19-23 | it fires iff some pattern matches with case ignored; the detail quotes the first matching pattern in list order; otherwise `(False, None)` |
| `RegexFilter.ScanIgnoresCase` | src/filters/regexfilters.py:21 | two texts that differ only in the case of ASCII letters get the same result |
| `RegexFilter.GreedyImportExact` | src/filters/regexfilters.py:5-6 | `import\s+os` and `import\s+sys` match exactly where "import", a whitespace run, and then the word follow each other |
| `RegexFilter.ImportNeedsWhitespace` | src/filters/regexfilters.py:5 | "IMPORT \t os" fires, while "importos" does not match the pattern |
| `Base64.Decode` | src/filters/encoding_check.py:23 | strict decoding succeeds exactly on canonical texts: alphabet characters followed by the padding their count calls for |
| `Base64.EncodeData` | src/filters/encoding_check.py:23 | reference encoder, not called by the code: the partner that `Base64.DecodeEncode` inverts. The unpadded encoding uses only alphabet characters, and its length modulo four is fixed by the byte count modulo three |
| `Base64.DecodeEncode` | src/filters/encoding_check.py:23 | decoding the encoding of any byte string gives it back |
| `Base64.StrictRejections` | src/filters/encoding_check.py:23 | leading padding, an inner space, a dangling character and surplus padding are refused; "QUJD" decodes to "ABC" |
| `Hex.IsHexIsListedTest` | src/filters/encoding_check.py:52-54 | `Hex.IsHex` holds exactly for texts of even length whose every character is one of "0123456789abcdefABCDEF" |
| `Hex.FromHex` | src/filters/encoding_check.py:36 | an accepted hex text yields half as many bytes, each made from its two digits |
| `Hex.ToHex` | src/filters/encoding_check.py:52-54 | reference encoder, not called by the code: the partner that `Hex.FromToHex` inverts. The hex rendering of bytes is accepted by `_is_hex` and is twice as long |
| `Hex.FromToHex` | src/filters/encoding_check.py:36 | `bytes.fromhex` undoes `bytes.hex` |
| `Utf8.HeadCodePoint` | src/filters/encoding_check.py:24 | every well-formed UTF-8 sequence decodes to a Unicode scalar value |
| `Utf8.DecodeEncode` | src/filters/encoding_check.py:24 | strict UTF-8 decoding undoes encoding for every text |
| `Utf8.Decode` | src/filters/encoding_check.py:24 | strictness: every byte string the decoder accepts is the UTF-8 encoding of the text it returns, so no other byte string is accepted |
| `Utf8.DecodeIffEncode` | src/filters/encoding_check.py:24 | a byte string decodes to a text exactly when it is that text's UTF-8 encoding |
| `Utf8.IllFormedRejections` | src/filters/encoding_check.py:37 | the overlong form C0 80, the encoded surrogate ED A0 80 and F4 90 80 80, above U+10FFFF, are refused |
| `Utf8.EncodeAscii` | src/filters/encoding_check.py:24 | an ASCII text encodes to one byte per character, its code |
| `EncodingCheck.PrintableCount` | src/filters/encoding_check.py:48 | the printable count never exceeds the length |
| `EncodingCheck.IsReadable` | src/filters/encoding_check.py:46-50 | readable iff the text is non-empty and ten times its printable count exceeds seven times its length, i.e. the 0.7 ratio in whole numbers |
| `EncodingCheck.AllPrintableIsReadable` | src/filters/encoding_check.py:46-50 | a non-empty fully printable text is readable |
| `EncodingCheck.TryBase64` | src/filters/encoding_check.py:22-30 | the Base64 branch yields a text iff strict decoding, UTF-8 decoding and the readability filter all succeed; the text yielded is the UTF-8 decoding of the Base64 bytes, so its UTF-8 encoding is exactly those bytes |
| `EncodingCheck.TryHex` | src/filters/encoding_check.py:34-42 | the hex branch yields a text iff UTF-8 decoding of the hex bytes and the readability filter succeed; the text yielded is that decoding, so its UTF-8 encoding is exactly the hex bytes |
| `EncodingCheck.Detect` | src/filters/encoding_check.py:21-44 | a successful Base64 attempt on a candidate wins; a hex result comes only from a hex text whose decode is readable; not encoded iff both attempts fail |
| `EncodingCheck.Scan` | src/filters/encoding_check.py:14-44 | texts shorter than 16 are not encoded; any decoded text is readable; longer texts are judged on their stripped form |
| `EncodingCheck.ScanAsWritten` | src/filters/encoding_check.py:14-44 | `scan` as written raises `ValueError` exactly when the text is at least 16 long and its stripped form is a non-ASCII Base64 candidate; otherwise it returns what the corrected `EncodingCheck.Scan` returns |
| `EncodingCheck.AsWrittenVersusScan` | src/filters/encoding_check.py:21-30 | the code as written raises exactly on long non-ASCII Base64 candidates and otherwise agrees with the corrected scan |
| `EncodingCheck.NonAsciiPromptRaises` | src/filters/encoding_check.py:21-30 | sixteen accented letters make the code as written raise where the corrected scan reports not encoded |
| `EncodingCheck.NonAsciiIsNotEncoded` | src/filters/encoding_check.py:21-44 | a text whose stripped form is not ASCII is not encoded |
| `EncodingCheck.Base64RoundTrip` | src/filters/encoding_check.py:21-28 | Base64 of the UTF-8 bytes of a readable text, at least 16 characters long, is detected as Base64 and decoded to that text |
| `EncodingCheck.OddHexIsNotBase64Candidate` | src/filters/encoding_check.py:21 | the hex of an odd number of bytes is not tried as Base64 |
| `EncodingCheck.HexRoundTrip` | src/filters/encoding_check.py:34-40 | hex of the UTF-8 bytes of a readable text, when not a Base64 candidate and long enough, is detected as hex and decoded to that text |
| `EncodingCheck.BlankTextIsNotEncoded` | src/filters/encoding_check.py:14-17 | sixteen spaces pass the length gate but are not encoded |
| `Leakage.AlphabetChar` | src/monitors/leakage.py:22 | every character of the canary alphabet is an ASCII letter or digit |
| `Leakage.GenerateCanary` | src/monitors/leakage.py:20-23 | a generated canary has the canary shape, and its body holds the drawn alphabet characters in draw order |
| `Leakage.EveryCanaryIsGenerated` | src/monitors/leakage.py:20-23 | every text of the canary shape is produced by some draws |
| `Leakage.NewMonitor` | src/monitors/leakage.py:7-9 | a new monitor holds a canary of the canary shape |
| `Leakage.InjectCanary` | src/monitors/leakage.py:25-31 | the injected prompt starts with the system prompt and contains the canary |
| `Leakage.PiiMatches` | src/monitors/leakage.py:14-17 | no PII pattern matches a text shorter than its shortest match: 6 for the e-mail, 10 for the phone number, 51 for the API key, 5 for the secret |
| `Leakage.CheckOutput` | src/monitors/leakage.py:33-47 | the canary reason whenever the canary occurs verbatim; otherwise the PII reason when any pattern matches; `(False, None)` iff neither |
| `Leakage.InjectedPromptLeaks` | src/monitors/leakage.py:30-40 | a response echoing the injected prompt, with anything around it, reports the canary |
| `Leakage.LoweredCanaryIsNotTheCanary` | src/monitors/leakage.py:39 | the canary check is case-sensitive: the lowered canary does not trigger it |
| `Leakage.EmailIsFlagged` | src/monitors/leakage.py:14 | "mail user@example.com" is reported as PII |
| `Leakage.UpperCaseTextLeaksNothing` | src/monitors/leakage.py:13-18 | a response of upper-case letters and spaces triggers neither the canary nor any PII pattern |
| `Policy.ValidateResponse` | src/monitors/policy.py:14-25 | it flags iff some lowered banned phrase occurs in the lowered text; the reason names the first such phrase with its listed casing; otherwise `(False, None)` |
| `Policy.ValidateIgnoresCase` | src/monitors/policy.py:19-22 | texts with the same lowered form get the same verdict and reason |
| `Policy.ShoutedPhraseIsFlagged` | src/monitors/policy.py:8 | "BYPASS SECURITY" is flagged with the reason naming "bypass security" |
| `Policy.DanModeIsFlagged` | src/monitors/policy.py:11 | the mixed-case listed phrase is matched in lower case |
| `Pipeline.NormalizePerplexity` | src/monitors/integration.py:41-49 | the score never exceeds 1.0 and is non-negative for non-negative perplexity; above 100 it is 1.0, otherwise the perplexity's share of 100 |
| `Pipeline.NormalizeIsMonotone` | src/monitors/integration.py:46-49 | a larger perplexity never gives a smaller score |
| `Pipeline.HeuristicScore` | src/monitors/integration.py:63-73 | the heuristic score is 1.0 iff the encoding, keyword or regex detector fires on the original prompt, else 0.0 |
| `Pipeline.RiskIsBounded` | src/monitors/integration.py:32-36 | the weights sum to one, so component scores in [0, 1] give a total risk in [0, 1] |
| `Pipeline.ScanInput` | src/monitors/integration.py:51-106 | the risk is the weighted sum of the heuristic score, the normalized perplexity and the classifier probability of the original prompt; BLOCK iff the unrounded risk is at least 0.5, with the high-risk reason, else PASS with "Safe" |
| `Pipeline.ScanInputAsWritten` | src/monitors/integration.py:65-73 | the code as written crashes exactly when the encoding detector as written raises; otherwise it decides exactly as `Pipeline.ScanInput` |
| `Pipeline.AccentedPromptCrashesScanInput` | src/monitors/integration.py:65 | sixteen accented letters make `scan_input` as written raise `ValueError` |
| `Pipeline.ScanInputRiskIsBounded` | src/monitors/integration.py:86-90 | with a non-negative perplexity and a classifier probability in [0, 1], the total risk is in [0, 1] |
| `Pipeline.HeuristicsAloneCannotBlock` | src/monitors/integration.py:86-93 | with both model scores at zero the risk is at most 0.2 and the prompt passes |
| `Pipeline.KeywordHitWithCalmModelsPasses` | src/monitors/integration.py:65-93 | a blocklisted phrase with zero model scores has risk exactly 0.2 and passes |
| `Pipeline.KeywordHitWithWaryModelsBlocks` | src/monitors/integration.py:77-94 | the same phrase with perplexity 50 and probability 0.4 has risk 0.55 and is blocked |
| `Pipeline.ThresholdIsInclusive` | src/monitors/integration.py:39 | a risk of exactly 0.5 blocks |
| `Pipeline.ScanOutput` | src/monitors/integration.py:108-129 | a leak blocks with the leakage reason; without a leak a policy violation blocks with the policy reason; PASS with no reason iff neither fires |
| `Pipeline.LeakageDecidesAlone` | src/monitors/integration.py:116-120 | once leakage fires, the decision does not depend on what the policy would say |
| `Pipeline.EchoedSystemPromptIsBlocked` | src/monitors/integration.py:116-120 | a response echoing the canary-bearing system prompt is blocked with the canary reason |
| `Pipeline.BannedPhraseIsBlocked` | src/monitors/integration.py:122-127 | with no leak the policy decides: "BYPASS SECURITY" is blocked with the policy reason |
| `DriftDetector.NewDetector` | src/analysis/drift_detector.py:5-8 | a new detector has an empty window and the given size and threshold |
| `DriftDetector.Spread` | src/analysis/drift_detector.py:20 | the divisor is at least 1e-9 and its excess over 1e-9 squares to the window's population variance |
| `DriftDetector.UpdateAndCheck` | src/analysis/drift_detector.py:10-31 | with fewer than five earlier scores the result is (False, 0.0); otherwise the drift times the spread is the new score minus the mean of the earlier window; anomaly iff the drift's magnitude exceeds the threshold; the window then slides |
| `DriftDetector.SlideIsFifo` | src/analysis/drift_detector.py:27-29 | the new score is always appended, and the oldest is dropped exactly when the window is then longer than its size |
| `DriftDetector.Feed` | src/analysis/drift_detector.py:10-31 | repeated calls keep size and threshold, and leave the window that sliding the scores in gives |
| `DriftDetector.FeedKeepsBounded` | src/analysis/drift_detector.py:27-29 | from a window within its size, the window stays within its size after any number of calls |
| `DriftDetector.WindowIsRecentScores` | src/analysis/drift_detector.py:27-29 | FIFO: the window holds the most recent `window_size` scores, oldest first |
| `DriftDetector.ScoreAtMeanIsNormal` | src/analysis/drift_detector.py:22-25 | a score equal to the window mean has drift 0 and is not an anomaly |
| `DriftDetector.ConstantWindow` | src/analysis/drift_detector.py:18-25 | against a constant window, anomaly iff the score deviates by more than the threshold times 1e-9 |
| `DriftDetector.SpikeAfterFlatWindowIsAnomaly` | src/analysis/drift_detector.py:18-25 | five scores of 0.1 then 0.9 is an anomaly with the default threshold |
| `Divergence.Truncate` | src/analysis/divergence.py:16 | `int()` truncates toward zero |
| `Divergence.NumMutations` | src/analysis/divergence.py:16 | at least one step, and otherwise the whole part of length times rate |
| `Divergence.SwapNext` | src/analysis/divergence.py:23-25 | a swap exchanges a position with its right neighbour, wrapping to the front, and leaves the rest alone |
| `Divergence.Apply` | src/analysis/divergence.py:19-27 | a swap is exactly `SwapNext` at the drawn index modulo the length; a delete on a text of five or fewer characters leaves it unchanged; a delete on a longer text removes the drawn position and exactly that character |
| `Divergence.Run` | src/analysis/divergence.py:18-27 | the length never grows, drops by at most one per step and not below min(length, 5); the characters are a sub-multiset; an unchanged length means a permutation |
| `Divergence.MutateInput` | src/analysis/divergence.py:10-29 | texts shorter than two are unchanged; the output lies between the input length minus the step count and the input length, keeps at least min(length, 5) characters and draws its characters from the input |
| `Divergence.SwapsArePermutation` | src/analysis/divergence.py:23-25 | when every drawn operation is a swap the output is a permutation of the input |
| `Divergence.SwapNextTwice` | src/analysis/divergence.py:23-25 | swapping the same position twice restores the text |
| `Divergence.DefaultRateSteps` | src/analysis/divergence.py:7-16 | at rate 0.1, 19 characters get one step and 25 get two |
| `Divergence.DeleteNeedsSixCharacters` | src/analysis/divergence.py:26-27 | a delete removes a character from six characters and does nothing to five |
| `Divergence.SwapWrapsAround` | src/analysis/divergence.py:24 | the swap at the last position exchanges it with the first |
| `Statistical.Distinct` | src/analysis/statistical.py:14 | the keys of the counter are exactly the characters of the text, without repetition |
| `Statistical.Entropy` | src/analysis/statistical.py:11-12 | the empty text has entropy 0.0 |
| `Statistical.CountsSumToLength` | src/analysis/statistical.py:14-15 | the character counts add up to the length |
| `Statistical.ProbabilitiesSumToOne` | src/analysis/statistical.py:14-19 | the probabilities of a non-empty text add up to one |
| `Statistical.EntropyNonNegative` | src/analysis/statistical.py:18-21 | entropy is never negative when log2 is non-positive on (0, 1] |
| `Statistical.RepeatedCharacterHasNoEntropy` | src/analysis/statistical.py:18-21 | a text of one repeated character has entropy 0 |
| `Statistical.Split` | src/analysis/statistical.py:29 | every word of `split()` is non-empty and contains no whitespace, and the number of words is the number of positions where a whitespace-free run starts |
| `Statistical.TokenMetrics` | src/analysis/statistical.py:25-30 | the metrics report the entropy, the length, and the number of run starts as word count |
| `Statistical.TwoWords` | src/analysis/statistical.py:29 | " ab \t c" splits into "ab" and "c": leading whitespace and a mixed whitespace run yield no empty word |

## Left out

- Neural scorers: the perplexity model and the BERT classifier (`src/analysis/perplexity.py`, `src/detection/`) are torch inference. Their outputs are parameters of `Pipeline.ScanInput`.
- `calculate_kl_divergence`: numpy/scipy floating-point logarithms.
- Randomness: the canary draws and the mutation choices are inputs (see above). The model says nothing about their distribution.
- Floats: every score is a Dafny `real`. Rounding error is not modelled, so a float sum such as `0.2 + 0.3 + 0.5` is exact here.
- Display formatting: the `round(..., 4)`/`round(..., 2)` of the breakdown and the `:.4f` of the high-risk reason are left out. `Pipeline.Reason.HighRisk` keeps the unrounded risk. The decision itself uses the unrounded value, as in the code.
- The constructor `print`s and the model loading in `SecurePromptPipeline.__init__`.
- `DriftDetector` and `StatisticalAnalyzer` are constructed by the pipeline but never called from `scan_input`. They are modelled as stand-alone modules and are not wired into `Pipeline.ScanInput`.
- Case: `str.lower()` and `re.IGNORECASE` are modelled for ASCII letters only. Non-ASCII case mappings are not modelled, e.g. 'İ', or the Kelvin sign matching 'k' under `IGNORECASE`.
- `str.isprintable` is exact on ASCII and approximated above it by excluding the C1 controls, separators, common format characters and private-use areas. The full Unicode category table is not modelled.
- Regex classes `\d` and `\w` in the PII patterns are ASCII-only here. Python's `re` on `str` also accepts non-ASCII digits and letters.
- Regex `\s` is taken to be the `str.isspace` set.
- The four PII patterns are written as predicates over match positions. Python's backtracking search is not modelled, only whether a match exists.
- Base64 follows CPython 3.11 and later, where `validate=True` also enforces canonical padding. Earlier versions accept some non-canonical padding, such as "QUI==".
- Transport: the CLI (`main.py`) and the HTTP layer (`api/`). Their expected output shape (`metrics`) differs from what `scan_input` returns (`total_risk`/`breakdown`).
- Concurrency on the drift window: the model is single-threaded.
- `DriftDetector.IsSquareRoot` requires `sqrt(0.0) == 0.0` as well as the defining property. It holds for `np.sqrt` and follows from that property.
- The entropy bound `entropy <= log2(number of distinct characters)` is not proved: it needs properties of the logarithm beyond its sign.
- Pipeline.HeuristicScore: composes the corrected `EncodingCheck.Scan`, so it never raises; the code as written raises on long non-ASCII Base64 candidates (see Findings), which `Pipeline.ScanInputAsWritten` models.
- Pipeline.ScanInput: decides with the corrected encoding detector; `Pipeline.ScanInputAsWritten` models the code as written and agrees with it whenever the code does not raise.
- Lone surrogates: a Python `str` can hold an unpaired surrogate code point, a Dafny `char` cannot. Such texts are outside the model. Strict UTF-8 decoding never produces them, so this affects only the prompts and responses themselves.
- The decoded text of the encoding detector is discarded by `scan_input`, as in the code. The heuristics are not re-run on it.

## Findings

| source | as written | input that shows it | evidently intended | confidence | as-written member | corrected member |
|---|---|---|---|---|---|---|
| src/filters/encoding_check.py:21-30 | `base64.b64decode` on a `str` first encodes it as ASCII and raises `ValueError` for a non-ASCII text. The handler catches only `binascii.Error` and `UnicodeDecodeError`, so `scan` (and with it `scan_input`) raises. | any prompt of at least 16 characters whose stripped form is non-ASCII and a multiple of four long, e.g. sixteen "é" | "not encoded", like every other decode failure | not executed | `EncodingCheck.ScanAsWritten` (shown by `EncodingCheck.NonAsciiPromptRaises`), and in the pipeline `Pipeline.ScanInputAsWritten` (shown by `Pipeline.AccentedPromptCrashesScanInput`) | `EncodingCheck.Scan` (proved by `EncodingCheck.NonAsciiIsNotEncoded`) |
