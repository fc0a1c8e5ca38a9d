# Job-application progression engine (Swiss Assistenzarzt job bot)

This project models the decision logic of a Streamlit app. The app walks a
user through a CSV table of job postings. For each job it drafts an
application email with a language model, lets the user edit it, and sends
it from the user's Gmail account. A per-user document in Firestore records
which jobs are done (`applied_jobs`), two counters and the sent emails.

The model lifts that logic out of the UI functions of `app.py` into pure
functions over explicit state:

- `Catalog`: the job table, the `str(idx)` keys of the applied set and the
  next-job scan (`NextJob`). It returns the first row whose key is not
  applied and whose contact cell is a string containing `@`.
- `Engine`: the stored profile (`applied`, `sentCount`, `skippedCount`,
  `sentEmails`, attachments, CV text) and the session (`currentJobId`,
  job details, generated draft, manual details and draft, attachments, CV
  text). It holds the transitions of the Job Finder page: select, prepare,
  skip and send. It also holds the manual send, file upload and page
  reload. `Valid` is a state invariant that every event preserves.
- `Composer`: parsing the model's reply into a subject and a body
  (`ParseResponse`). It is partnered with `FormatResponse`, the reply shape
  the prompt asks for, by a round-trip lemma.
- `Cv`: the language check that decides whether the extracted CV text is
  kept or replaced by its translation.
- `Text`: the Python string operations these rely on, with Python's
  semantics. They are `strip()`, `in`, `split(sep)`, `replace(pat, '')`
  and `str(n)`.

External collaborators are inputs. The mail sender is a `bool`. The
language model's reply, the translation and the PDF text are each an
`Option<string>`, with None for Python's `None`.

In these places the model follows the code as written:

- A manual send does not increment `sent_count` (app.py:302-307). It only
  appends the record and clears the manual draft.
- Skip and a catalog send clear only `current_job_id` (app.py:262, 305),
  not the generated draft. The draft is discarded at the next selection,
  because the next job always has a different id.
- A reply without the `|||` delimiter gets the fixed German subject
  "Bewerbung für die ausgeschriebene Position", not an empty one
  (app.py:134). An empty or missing CV gives an empty draft (app.py:109-111).
- The manual path (`is_manual=True`) is modelled as written. However,
  nothing in `app.py` calls it or sets `manual_job_details`.

Two behaviours of the code are proved rather than changed:

- The scan tests the whole contact cell for `@`. The recipient, however, is
  only the cell's first comma-separated piece. So `Sekretariat, hr@spital.ch`
  is shown and addressed to `Sekretariat` (`Engine.RecipientMayLackAt`).
- A reply body that itself contains `|||` is cut at that point, because
  only `split('|||')[1]` is kept. This is why `Composer.ParseFormatRoundTrip`
  requires that the body holds no delimiter.

## Model

| member | source | states |
|---|---|---|
| Catalog.NextJob | app.py:231-234 | The result is the first row in table order whose `str(idx)` is not applied and whose contact is a string containing `@`. It is None exactly when no row qualifies. |
| Catalog.NextJobFrom | app.py:231 | Scanning from `from` returns the first qualifying row at or after `from`. It returns None exactly when none qualifies there. |
| Catalog.NoAddressNeverSelected | app.py:231 | A row whose contact is not a string, or lacks `@`, is never selected, whatever the applied set. |
| Catalog.AppliedNeverSelected | app.py:231 | A job whose key is in the applied set is never selected again. |
| Catalog.PendingSet | app.py:231 | The pending ids are exactly the rows the scan is allowed to return. The scan finds nothing exactly when this set is empty, and otherwise returns its smallest element. |
| Catalog.RetireExactlyOne | app.py:231 | Adding `str(j)` to the applied set removes exactly job `j` from the pending jobs and no other job. |
| Catalog.ExampleScan | app.py:231 | Take rows 0 and 2 with addresses and row 1 with an empty (NaN) contact. The scan shows row 0, and row 2 once row 0 is retired. |
| Text.NatToString | app.py:231 | `str(n)` is a non-empty string of decimal digits whose value is `n`, with no leading zero unless it is the single digit `0`. |
| Text.NatToStringInjective | app.py:231 | Distinct job ids have distinct `str()` keys. |
| Text.Find | app.py:129 | The result is the first index where the pattern occurs. It is None exactly when `pat in s` is false. |
| Text.FindFrom | app.py:129 | The result is the first occurrence at or after `from`. None means there is no occurrence at or after `from`. |
| Text.FindIs | app.py:129 | An occurrence with no occurrence before it is the one `Find` returns. |
| Text.ContainsChar | app.py:231 | Searching for a one-character string agrees with character membership. |
| Text.Split | app.py:130-131 | `split(sep)` gives at least one piece and no piece contains the separator. There is exactly one piece iff the separator does not occur. |
| Text.JoinSplit | app.py:130-131 | Joining the pieces of `split(sep)` with `sep` gives back the original string. |
| Text.FirstPiece | app.py:244 | `split(sep)[0]` is a prefix of the string without the separator. It is the whole string when the separator is absent, and otherwise ends exactly where the first occurrence begins. |
| Text.FirstPieceOfChar | app.py:244 | Split at one character, the first piece is the whole text or is followed in the text by that character. |
| Text.RemoveAll | app.py:130-131 | `replace(pat, '')` leaves the string unchanged iff `pat` does not occur. Otherwise it shortens the string by at least `len(pat)`. |
| Text.RemoveAllIsJoinOfSplit | app.py:130-131 | `replace(pat, '')` equals `''.join(split(pat))`. |
| Text.Strip | app.py:130-131 | `strip()` yields a string with no whitespace at either end and no longer than its input. |
| Text.StripPadded | app.py:244 | Whitespace, then a stripped middle, then whitespace strips to exactly that middle. |
| Text.StripIdempotent | app.py:130 | Stripping twice is the same as stripping once. |
| Text.TrimStart | app.py:130 | Removes exactly the longest leading run of whitespace. |
| Text.TrimEnd | app.py:130 | Removes exactly the longest trailing run of whitespace. |
| Composer.ParseResponse | app.py:108-134 | An empty or missing CV gives an empty draft. A reply containing the triple-bar delimiter gives the stripped text before the first delimiter with every `Subject:` removed as the subject. Its body is the stripped text between the first and second delimiter with every `Body:` removed. Any other reply keeps the German placeholder subject, with the reply as body or the fallback text when the reply is missing or empty. |
| Composer.FallbackBodyNonEmpty | app.py:134 | Without a delimiter, a non-empty CV always gives the placeholder subject and a non-empty body. |
| Composer.ParseFormatRoundTrip | app.py:126-132 | A reply in the requested shape (`Subject: S`, the triple-bar delimiter, `Body: B`) parses back to `(S, B)`. This holds for S without a bar character, B without a delimiter, no repeated tags, and both already stripped. |
| Composer.SecondSegmentOfFormat | app.py:131 | The body segment of a well-formed reply is everything after its delimiter. |
| Cv.HasAccent | app.py:355 | True exactly when one of `àéâç` occurs in the text. |
| Cv.ChooseCvText | app.py:351-358 | With no extracted text the CV text is empty. With an accent among the first 500 characters the extracted text is kept. Otherwise the translation is used, which is None if translation failed. |
| Cv.LateAccentIgnored | app.py:355 | Accents after the first 500 characters do not count, so such a CV is replaced by its translation. |
| Engine.NormaliseContact | app.py:244 | The recipient is the first comma-separated piece of the stripped `str()` of the contact cell: a comma-free prefix that is either the whole stripped text or is followed in it by a comma. |
| Engine.NormaliseCleanContact | app.py:244 | An already stripped, comma-free address is kept unchanged. |
| Engine.RecipientBeforeComma | app.py:244 | The recipient of a clean cell ends before the cell's first comma. |
| Engine.RecipientMayLackAt | app.py:231-244 | A row passes the `@` check, but its recipient has no `@` when the `@` comes after the first comma. |
| Engine.DetailsFor | app.py:241-246 | The recorded details carry the job's id and the row's normalised contact. A column present in the row is copied as it is. An absent title becomes "N/A", and an absent hospital, canton or description becomes the empty string. |
| Engine.SelectJob | app.py:238-246 | Selecting the current job again leaves the session untouched, so the draft survives. Another job sets the id, drops the draft and records that row's details. Manual fields, attachments and CV text never change. |
| Engine.ShowNextJob | app.py:231-246 | When no job is left the session is unchanged. Otherwise the scanned job becomes current. If it was already current the session is kept, draft included. If not, the draft is dropped and the details become that row's `DetailsFor`. The manual job, the manual draft, the attachments and the CV text are never touched. |
| Engine.PrepareDraft | app.py:253-258 | Preparing stores the parse of the model's reply against the session's CV text and changes nothing else. With no CV text the draft is empty. With a CV, the body is non-empty unless a delimited reply produced it. |
| Engine.Skip | app.py:259-262 | The shown job's key joins the applied set by union and the skip counter rises by exactly 1. `currentJobId` is cleared, and nothing else in profile or session changes. |
| Engine.SkipTwice | app.py:260-261 | Skipping the same job twice adds nothing new to the applied set, but counts two skips. |
| Engine.Send | app.py:285-308 | With no attachments the result is `NoAttachment` and nothing changes. A sender failure changes nothing, so the draft stays for a retry. Delivery appends exactly one record with the form values and the job title. For a catalog job it also retires the job, adds 1 to `sentCount` and clears `currentJobId`. For a manual job it keeps applied set and counters and clears only the manual draft. |
| Engine.NoAttachmentIgnoresSender | app.py:286-287 | Without attachments the sender's answer is never consulted. Both answers give the same step, which leaves the state unchanged. |
| Engine.ManualSendKeepsCatalogProgress | app.py:302-307 | A manual send never changes the applied set, the skip counter or the send counter, whatever the sender says. |
| Engine.SaveFiles | app.py:338-375 | The uploaded files, in order, replace the attachments in store and session. The CV text chosen by the language check is stored in both. Nothing else changes. |
| Engine.Reload | app.py:414-416 | A page load copies the stored attachments and CV text into the session and changes nothing else. |
| Engine.FinderRun | app.py:222-265 | A Job Finder run with no job left changes nothing. A run without a button press is exactly `ShowNextJob` on the session. Pressing "Prepare Application" is exactly `ShowNextJob` followed by `PrepareDraft` with the reply, so the profile is kept and only the draft changes after the selection. "Skip Job" is exactly `Skip` of the selected state. "Send Application" is exactly `Send` of the selected state with the submitted form, and leaves the state as selected when no draft exists yet. |
| Engine.ViewIdempotent | app.py:238 | Re-rendering the Job Finder without a button press is idempotent: an open draft survives. |
| Engine.SkipRetiresShownJob | app.py:259-262 | Skipping in a run removes exactly the shown job from the pending jobs and counts one skip. That job is never shown again. |
| Engine.SendShownOutcome | app.py:285-308 | Delivering the shown job's email removes exactly that job from the pending jobs. It appends one record holding the submitted recipient, subject and body and the job's title, adds one send and clears the current job. Otherwise the run leaves the state unchanged. |
| Engine.InitialValid | app.py:384-391 | The initial session with an empty profile satisfies the invariant. |
| Engine.StepPreservesValid | app.py:222-308 | Every event keeps the invariant. Every send is recorded. The applied set has no more keys than skips plus sends, and holds only keys of rows. Session details come from their row. The current job is pending: its key is not applied and its contact is a string with `@`. |
| Engine.DefaultRecipientIsRowContact | app.py:271-275 | In a valid state, a catalog review form opens addressed to the job row's normalised contact, which holds no comma. |
| Engine.StepMonotone | app.py:298-304 | No event undoes progress. Applied keys stay, counters never decrease, and sent records are only appended. |

## Left out

- OAuth sign-in, token pickling and the Firestore client (app.py:36-84, 187-198) are I/O and foreign libraries. The store is the in-memory `Profile`, and merge writes, `ArrayUnion` and `Increment` are pure updates. The applied set is a `set`, so the order of Firestore's array is not kept.
- The language-model call and the translation (app.py:89-106, 180-182) are network calls. Their results are optional-string inputs, and the prompt text is not modelled.
- MIME and base64 assembly in `send_email_logic` (app.py:136-168) is library encoding. Only its success flag is modelled, and the `From` identity is left out. Attachment bytes are kept raw, not base64.
- PDF extraction (app.py:170-178) and CSV loading (app.py:225) are I/O. The extracted text is an input and the table is a `seq<Row>` indexed from 0.
- The dashboard, settings and page-layout rendering (app.py:203-220, 311-335, 380-448) are UI. Only the reload of attachments and CV text (app.py:414-416) is modelled.
- Skip and send make separate, non-atomic store writes (app.py:260-261, 298-304), and two tabs can race. Each button press is modelled as one atomic step.
- The `sent_at` server timestamp (app.py:300) is abstracted away.
- Engine.FinderRun: the Job Finder page is only rendered when the reloaded CV text is non-empty and attachments exist (app.py:419). The model runs without this gate, so it also covers states the app never reaches, such as the `NoAttachment` outcome of a Job Finder send or an empty-CV draft.
