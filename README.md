# Student dashboard: quiz ledger and tutor-reply handling

This project models the two pieces of logic in the dashboard's Flask app
(`app.py`) that are more than database and template glue.

- **Quiz-statistics ledger** (`update_quiz_stats`). Each answered quiz
  question updates the signed-in user's record in place. A correct answer
  earns 10 points. The quiz count rises by one. The stored average is
  recomputed from a running total that is rebuilt from the stored,
  already-truncated average. The per-subject score map gains 10 (capped at
  100) or loses 5 (floored at 0), and a subject it has not seen yet is first
  inserted at 0. If the stored subject-score text cannot be used, only the
  subject update is skipped.
  Module `QuizStats` holds the model. The class `UserStats` has the record's
  fields, and its method `RecordAnswer` changes them (`modifies this`). Pure
  functions specify each step, and lemmas prove the promised properties,
  both for one answer and for whole histories of answers.
- **Tutor-reply handling** (`ai_chat`). The hosted model's reply text goes
  through these steps:
  1. It is trimmed with Python's `str.strip()`.
  2. A leading "```json" is dropped.
  3. Then, independently, a leading "```" is dropped.
  4. A trailing "```" is dropped.
  5. The text is trimmed again and parsed as JSON.

  Whatever is parsed is sent back unchanged. If the model call or the parse
  raises, the fixed reply `{"type": "chat", "reply": "I am thinking... try
  asking again!"}` is sent instead. Module `AiChat` models this as pure
  functions. The model call is a `ModelCall` value, either the reply text or
  "raised". The JSON parser is a function parameter of type
  `string -> Option<Json>`.

Module `Wrappers` holds the `Option` type both modules use. The method
`QuizStats.ExampleSession` is a usage example of the class: it models no
function of `app.py`, only calls `RecordAnswer` three times and checks the
resulting averages.

In these places the code behaves differently from what a reader might expect, and the model follows the code:

- The ledger update returns only a success flag, not the new points, so
  `RecordAnswer` returns nothing.
- The chat endpoint never checks the parsed value's `"type"` field
  (`app.py:201`). An object with an unknown type is passed on, not replaced
  by the fallback (`AiChat.OtherTypePassedOn`).
- The subject defaults to `"General"` only when the request has no
  `subject` key (`app.py:142`). An empty subject name is kept as it is, so
  the requested subject is an `Option<string>`.
- The reconstruction of the running total from the truncated average loses
  ground. The model keeps this drift exactly as written:
  - `QuizStats.AverageLagsTrueMean` proves that the stored average never
    exceeds the true truncated mean.
  - `QuizStats.ExampleDrift` shows that correct, incorrect, incorrect,
    correct stores 49 where the true mean is 50.

## Model

| member | source | states |
|---|---|---|
| `QuizStats.UserStats.constructor` | app.py:43-48 | A new account has 0 points, a quiz count of 0, an average of 0 and the default subject map (Math, Science, English, History, AI at 0), and satisfies the range invariant. |
| `QuizStats.UserStats.RecordAnswer` | app.py:137-155 | The record's numbers (points, count, average) become `Step` of the old numbers. `Step` adds 10 points for a correct answer and none otherwise, raises the count by exactly 1, and sets the average to `NextAverage` of the old average and count. A usable subject map becomes `UpdateScores` of the old map for the requested subject, or "General" when none is named. A corrupt map is left unchanged while the numbers still change. The range invariant (points >= 0, average and subject scores in [0, 100]) is preserved. |
| `QuizStats.TruncDiv` | app.py:147 | Python's `int(a / b)` for `b > 0`: the quotient truncated toward zero. For `a >= 0` it is the largest `q` with `q*b <= a`. For `a < 0` it is the smallest `q` with `a <= q*b`. |
| `QuizStats.NextAverage` | app.py:144-147 | For a non-negative reconstructed total `avg*count + score`, where the score is 100 for a correct answer and 0 otherwise, the new average is its floored mean: `r*(count+1) <= avg*count + score < (r+1)*(count+1)`. Every record that satisfies the range invariant has a non-negative total. A negative total is truncated toward zero by `TruncDiv`. |
| `QuizStats.AverageStep` | app.py:144-147 | An average in [0, 100] stays in [0, 100] after any answer. A correct answer never lowers it, and an incorrect one never raises it. |
| `QuizStats.AdjustScore` | app.py:151 | A correct answer gives `score + 10`, or 100 when that would pass 100, so the result is <= 100. An incorrect answer gives `score - 5`, or 0 when that would go below 0, so the result is >= 0. A score in [0, 100] stays there. |
| `QuizStats.UpdateScores` | app.py:149-152 | The keys are the old keys plus the subject. A subject not yet present ends at 10 when the answer is correct and at 0 otherwise. A present subject gets `AdjustScore`. Every other subject keeps its value. A map in range stays in range. |
| `QuizStats.HistoryKeepsRange` | app.py:151 | Scores that start in [0, 100] stay in [0, 100] under any sequence of answers. |
| `QuizStats.UntouchedSubjectKept` | app.py:150-152 | A subject that no answer in a history names keeps its score through the whole history. |
| `QuizStats.ReplayTally` | app.py:143-147 | After any history from a new account: the count equals the number of answers, the points are 10 per correct answer, the average is in [0, 100], and average × count <= 100 × (correct answers). |
| `QuizStats.AverageLagsTrueMean` | app.py:145-147 | The stored average never exceeds the truncated true mean `100 × correct / count`. |
| `QuizStats.UniformHistory` | app.py:144-147 | A non-empty history of only correct answers leaves the average at 100. One of only incorrect answers leaves it at 0. |
| `QuizStats.ExampleAverages` | app.py:144-147 | Correct, incorrect, correct from a new account gives the averages 100, 50, 66. |
| `QuizStats.ExampleDrift` | app.py:145-147 | Correct, incorrect, incorrect, correct stores 49, while the truncated true mean is 50. |
| `AiChat.Trim` | app.py:193 | Python's `str.strip()`. The result has no leading or trailing whitespace (Python's `isspace` set), is no longer than the input, and is empty exactly when the input is all whitespace. That the result is the input's middle part, with only whitespace removed around it, is stated by `AiChat.TrimPadded`. |
| `AiChat.TrimTight` | app.py:199 | Text without surrounding whitespace is unchanged by trimming. |
| `AiChat.TrimIdempotent` | app.py:193-199 | Trimming twice gives the same result as trimming once. |
| `AiChat.TrimPadded` | app.py:193 | Non-empty text without surrounding whitespace, padded on both sides with whitespace, trims back to itself. |
| `AiChat.DropPrefix` | app.py:196-197 | If `s` starts with the prefix, `s` is the prefix followed by the result. Otherwise the result is `s`. |
| `AiChat.DropSuffix` | app.py:198 | If `s` ends with the suffix, `s` is the result followed by the suffix. Otherwise the result is `s`. |
| `AiChat.StripFences` | app.py:193-199 | The text handed to the parser has no surrounding whitespace and is no longer than the raw reply. |
| `AiChat.UnfencedOnlyTrimmed` | app.py:193-199 | A reply whose trimmed text neither starts nor ends with "```" is only trimmed. |
| `AiChat.JsonFencedBody` | app.py:193-199 | Whitespace + "```json" + body + "```" + whitespace yields the trimmed body, for any body that does not itself open with "```". |
| `AiChat.PlainFencedBody` | app.py:193-199 | Whitespace + "```" + body + "```" + whitespace yields the trimmed body, for any body that opens neither with "```" nor with "json". |
| `AiChat.OpeningFenceDroppedOnce` | app.py:197 | The plain opening fence is removed at most once: "```" + "```" + rest yields "```" + rest, for any non-empty rest whose last character is neither whitespace nor a backtick. Without that condition the trailing-fence check of `app.py:198` or the final trim can remove more. |
| `AiChat.JsonThenPlainFence` | app.py:196-197 | The two opening checks are independent: "```json" + "```" + rest yields the trimmed rest, with both fences removed, for any non-empty rest whose last character is neither whitespace nor a backtick. |
| `AiChat.ChatReply` | app.py:191-204 | A model call that raised gives exactly the fallback reply, and so does a failed parse. A successful parse is returned unchanged. Any reply other than the fallback is exactly what the parser returned for the stripped text. |
| `AiChat.FencedReplyAsUnfenced` | app.py:191-201 | A reply wrapped in "```json" … "```" and whitespace is answered exactly as the unwrapped reply, for any parser, whenever the trimmed body neither starts nor ends with "```". |
| `AiChat.BlankReplyFallsBack` | app.py:199-204 | A blank reply reaches the parser as empty text. When the parser rejects empty text, the fallback is sent. |
| `AiChat.OtherTypePassedOn` | app.py:201 | A parsed object whose "type" is not "chat" is sent on unchanged and is not the fallback, because the discriminator is never checked. |

## Left out

- Flask routing, `request.get_json`, `jsonify`, templates, redirects, flash messages and the login, logout and signup routes (password hashing, the duplicate-email check): web plumbing and calls into foreign libraries.
- Persistence: `db.session.commit` and the SQLAlchemy models. The record is the object's fields after `RecordAnswer` returns. The messages and to-do routes are database create/read/delete with no logic to state.
- The prompt text and its choice by `"quiz" in user_msg.lower()`, and the call to the hosted model (`model.generate_content`). The call is reduced to its outcome, `ModelCall`: the reply text, or an exception.
- JSON encoding and decoding. `json.loads` of the reply is a parser parameter. The subject-score column is modelled already decoded (`Parsed` or `Corrupt`). Writing it back with `json.dumps` and reading it again is assumed to give the same map.
- JSON numbers are kept as their literal text, and object key order is not modelled (a `map`).
- Python's float division in `int((total + score) / quiz_count)`: `TruncDiv` is exact integer truncation toward zero. It agrees with the float computation while the operands stay below 2^53.
- Subject maps with any value that is not an integer cannot be represented: `Parsed` holds only integer values. Python raises only when the answered subject's own value is not a number (`app.py:151`), and `Corrupt`, which `RecordAnswer` leaves unchanged, matches that case. When only other subjects hold such values, Python updates the answered subject and keeps the other values as they are; the model does not capture that case. Boolean and float values, which Python would add to, are not modelled either.
- Requests whose `subject` is not a string (a JSON `null` or a number), and a `correct` field that is not a boolean. Python reads `correct` by truthiness. The model takes the resulting boolean.
- A negative stored quiz count cannot be represented: the count is a `nat`, because nothing in the app decrements it.
- The 64-bit range of the database integer columns and the 500-character limit of the subject-score column.
- Concurrent requests for the same user are not modelled. `RecordAnswer` is one atomic step on the record, while the read-modify-write of `app.py:143-154` runs once per request and the development server started at `app.py:252` serves requests on several threads, so two concurrent answers can lose an update.
- The error log line printed when the reply handling fails (`app.py:203`).
- `generate_performance_graph` (matplotlib rendering) and the fields the update never touches (`streak`, `videos_watched`, username, email, password).
- All of `static/js/script.js`: DOM updates and `fetch` calls.
