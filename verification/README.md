# TNFD-Grader evaluation parser

TNFD-Grader is a small web service that sends a user's PDF report, together
with the TNFD recommendations document, to a hosted language-model assistant
and returns a compliance score with an explanation. The only computation the
service itself performs is at the end of `generateEvaluation` in `app.js`: the
assistant's free-text reply is turned into `{ score, explanation }`:

- the reply is split on `'\n'`;
- the first piece, with its first `%` removed and then trimmed, is the score;
- the remaining pieces, joined back with `'\n'` and trimmed, are the
  explanation.

This project models that parser as the pure function `App.ParseEvaluation`
over `seq<char>`, on top of explicit models of the JavaScript string
operations it uses (module `JsString`: `split`, `join`, `replace` with a
string pattern and `trim`, with `IndexOf` as the first-occurrence search
behind `split`, `replace` and the first line). It proves what the parser
promises: the score is the first line with only its first `%` dropped, it never holds a line
break, the explanation is the trimmed text after the first line break
(interior line breaks kept, empty when there is no line break), and both
fields are trim outputs. Trim is characterised independently (a white-space
prefix, a trimmed middle and a white-space suffix determine it uniquely), and
split and join are shown to be inverse.

Files:

- `js_string.dfy` — module `JsString`: the JavaScript string operations.
- `app.dfy` — module `App`: the `Evaluation` record and `ParseEvaluation`.

The example reply `"87%\nThe report demonstrates..."` parses into
`{ score: "87", explanation: "The report demonstrates..." }`
(`App.ExampleReply`), an instance of `App.TypicalReply`, which proves
`{ score: "87", explanation: body }` for every already-trimmed body after
`"87%\n"`.

`scoreLine.replace('%', '')` removes the first `%` wherever it is, not only
a trailing one, so `"8%7%"` gives the score `"87%"` (`App.SecondPercentKept`).
The code splits on every line break and joins the tail back;
`JsString.SplitFirst` shows that this tail is exactly the text after the first
line break.

## Model

| member | source | states |
|---|---|---|
| `JsString.Split` | app.js:140 | `split('\n')` returns at least one piece, no piece contains the separator, and joining the pieces with the separator gives back the input |
| `JsString.Join` | app.js:142 | `join('\n')` of no pieces is the empty string; otherwise the result starts with the first piece and, when there are several, the separator follows it immediately |
| `JsString.JoinCount` | app.js:142 | joining separator-free pieces inserts exactly one separator between neighbours: the result holds one separator fewer than there are pieces |
| `JsString.SplitJoin` | app.js:140-142 | splitting the join of any non-empty list of separator-free pieces gives back that list, so split and join are inverse |
| `JsString.SplitFirst` | app.js:140-142 | the first piece is the text before the first separator (the whole input if there is none) and the remaining pieces join back to exactly the text after that first separator |
| `JsString.ReplaceFirst` | app.js:141 | `replace('%', ...)` with a string pattern leaves input without `%` unchanged, and otherwise replaces exactly the first `%` (everything before it is `%`-free) |
| `JsString.RemoveFirstCount` | app.js:141 | removing the first occurrence lowers that character's count by one, floored at zero, and keeps every other character's count |
| `JsString.Trim` | app.js:141-142 | `trim()` returns a string no longer than its input that neither starts nor ends with white space |
| `JsString.TrimParts` | app.js:141-142 | the input is a white-space prefix, then the trim result, then a white-space suffix, so trim returns a contiguous slice and removes only white space |
| `JsString.TrimUnique` | app.js:141-142 | whenever the input is a white-space prefix, a trimmed middle and a white-space suffix, trim returns that middle |
| `JsString.TrimIdempotent` | app.js:141-142 | trimming twice equals trimming once |
| `JsString.TrimOfTrimmed` | app.js:141-142 | a string that neither starts nor ends with white space is unchanged by trim |
| `JsString.TrimEmpty` | app.js:141-142 | trim returns the empty string exactly when the input is all white space |
| `JsString.TrimCount` | app.js:141-142 | trim keeps the count of every non-white-space character and introduces no character |
| `App.FirstLine` | app.js:140 | the score line is free of line breaks and is all of the reply when it has none, otherwise the prefix ending just before the first line break |
| `App.SplitFirstLine` | app.js:140 | the first element of `content.split('\n')` is `FirstLine(content)` |
| `App.ParseEvaluation` | app.js:140-144 | the score is the first line with its first `%` removed, trimmed; the explanation is empty without a line break and otherwise the trimmed text after the first line break; the score holds no line break; neither field starts or ends with white space |
| `App.ScoreHasNoLineBreak` | app.js:140-141 | removing a `%` from a line without line breaks and trimming it yields no line break |
| `App.LinePercentCount` | app.js:141 | after removing the first `%` and trimming, a line holds one `%` fewer, or none if it had none |
| `App.ScorePercentCount` | app.js:141 | the score holds one `%` fewer than the reply's first line, or none if the first line had none |
| `App.ExplanationKeepsBody` | app.js:140-142 | when the text after the first line break is already trimmed, the explanation is exactly that text, interior line breaks included |
| `App.ExplanationEmpty` | app.js:140-142 | the explanation is empty exactly when the reply has no line break or only white space follows the first one |
| `App.ParseLineAndBody` | app.js:140-144 | a reply made of a line, a line break and a body parses into the line with its first `%` removed and trimmed, and the trimmed body |
| `App.TypicalScore` | app.js:141 | the first line `"87%"` yields the score `"87"` |
| `App.TypicalReply` | app.js:140-144 | a reply `"87%\n"` followed by any trimmed body, such as `"The report demonstrates..."`, yields score `"87"` and that body as explanation |
| `App.ExampleReply` | app.js:140-144 | the reply `"87%\nThe report demonstrates..."` yields score `"87"` and explanation `"The report demonstrates..."` |
| `App.SingleLineReply` | app.js:140-142 | a reply without a line break yields the whole reply with its first `%` removed, trimmed, as score and an empty explanation |
| `App.SecondPercentScore` | app.js:141 | the line `"8%7%"` yields the score `"87%"` |
| `App.SecondPercentKept` | app.js:140-144 | the reply `"8%7%"` yields score `"87%"` and an empty explanation |

## Left out

- The Express server, static file serving, the `/evaluate` route and its catch-all 500 response (app.js:7-42): HTTP framework plumbing.
- Multer upload storage and reading the uploaded file (app.js:8, 48): file I/O.
- `uploadFileToOpenAI`, `createVectorStore` and the assistant, thread and run requests (app.js:46-136): outbound network calls whose results are opaque provider identifiers.
- JSON decoding and the unchecked `data.id` and `runData.messages[0].content` accesses (app.js:59-60, 76-77, 136-137): a foreign response shape. The model takes `content` as a given string; a `content` that is not a string (which would make `split` throw and the route answer 500) is not modelled.
- Reading the API key and the port from the environment (app.js:10, 39): ambient process state.
- The order of the sequential awaits: it sequences network calls and computes nothing.
- JsString.ReplaceFirst: requires a replacement without `$`, because JavaScript's `$&`, `$1`-style substitution patterns are not modelled; the parser only ever passes the empty replacement.
- JsString.IsWhitespace lists the ECMAScript WhiteSpace and LineTerminator characters with the Unicode "Zs" set written out as of Unicode 15; characters a later Unicode version adds to "Zs" are not tracked.
- JavaScript strings are sequences of UTF-16 code units, while `char` here is a Unicode scalar value. Every character the parser looks at (`'\n'`, `'%'`, the white-space set) is a single code unit, so the split, replace and trim results agree; lengths of text outside the Basic Multilingual Plane are not modelled. A `char` cannot hold a lone surrogate code unit (which a JSON `\ud800` escape in `content` can produce), so replies containing one are outside the model.
