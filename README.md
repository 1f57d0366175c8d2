# maildat mail-merge core in Dafny

`app.py` is a command-line mail-merge script. It works in these steps:

1. Read a CSV table of recipients and a Markdown body template with `{{name}}` placeholders.
2. Check that every placeholder of the body names a column.
3. Render one message (subject and body) per row into a dict keyed by recipient.
4. Write a preview of the first message.
5. Send a batch containing every entry whose key passes an address pattern.

This project models that core and proves what it does.

- `wrappers.dfy` (`Wrappers`): the `Option` and `Result` datatypes.
- `strings.dfy` (`Strings`): Python's `str.replace` as `ReplaceAll`, a non-overlapping left-to-right replacement.
- `extract.dfy` (`Extract`): `extract_vars`. `re.findall(r"\{\{(.*?)\}\}", ...)` is written as an explicit scanner.
  - `CloseIndex` is the lazy group, which stops at the first `}}` and never crosses a newline.
  - `FindAll` is the scan. After a failed match attempt it moves on by one character; after a match it resumes after the `}}`.
- `interpolate.dfy` (`Interpolate`): `interpolate_vars`. It is a method whose loop is proved equal to the left fold `Interpolated` of `replace` over the dict's pairs. The module also holds the order-dependence facts.
- `templates.dfy` (`Templates`): templates built from literal text and placeholders (`Piece`s). For well-formed ones:
  - extraction returns exactly the placeholder names;
  - sequential replacement with plain values equals simultaneous filling;
  - so the placeholders left afterwards are exactly those whose name is not a key.
- `address.dfy` (`Address`): the pattern `^((?!\.)[\w\-_.]*[^.])(@\w+)(\.\w+(\.\w+)?[^.\W])$`, hand-coded as one predicate per group.
  - `\w` is a parameter `isWord`.
  - The domain is proved to be exactly two or three word labels, the last one at least two characters long.
- `mailmerge.dfy` (`MailMerge`): the parts of `main` that make up the core:
  - the unresolved-variable gate;
  - the render loop building `final_emails`, a Python dict modelled as a key order plus a map;
  - the preview sample;
  - the address-filter loop building `params`;
  - `Run`, which chains them with the failures in the order the script meets them.

`final_emails` is specified independently of the loop, by `FinalEmails`:

- its keys are the row recipients in order of first occurrence (`FirstOccurrences`);
- each key's value is the message rendered from the *last* row carrying that recipient (`LastIndex`).

`RenderEmails` is proved to produce exactly this. The filter loop is proved equal to `AcceptedParams`, which is then shown to be sound, complete and in dict order.

## Behaviour worth knowing

Each point below is what `app.py` does, and the model follows it.

- Interpolation does not always remove the markers of the filled names. A value can itself contain a marker:
  - a marker of a later key is replaced again (`LaterMarkerReplaced`);
  - a marker of an earlier key survives (`EarlierMarkerSurvives`).
  
  Full resolution holds for well-formed templates with values that hold no `{{` and no trailing `{` (`InterpolateResolves`, `BodyFullyResolved`).
- Duplicate recipients are not removed. The result of `drop_duplicates` is discarded, so a later row overwrites an earlier one while the key keeps its first position (`DuplicateRecipient`). The call's only remaining effect is the `KeyError` it raises when the key column is missing and the table has at least one row (`Run`, failure `MissingKeyColumn`). On a table with no rows, pandas returns a copy before it looks at `subset`. The script then goes on to the gate, and after it to `next`, so the result is `UnresolvedVariables` or `NoRows`.
- With zero rows the script raises from `next`. The model returns the failure `NoRows` in its place.
- The title template is never checked against the columns. Only the body's variables are substituted into it (`TitleKeepsOtherColumns`).

## Model

| member | source | states |
|---|---|---|
| Strings.ReplaceAll | app.py:24 | Definition of `str.replace`: the leftmost occurrence is replaced and the scan resumes after it. Its properties are the `Replace…` lemmas below |
| Strings.ReplaceAbsent | app.py:24 | Replacing a pattern that does not occur leaves the string unchanged |
| Strings.ReplaceBySelf | app.py:24 | Replacing a pattern by itself leaves the string unchanged |
| Strings.ReplaceWhole | app.py:24 | A string that is exactly the pattern becomes exactly the replacement |
| Strings.ReplaceCons | app.py:24 | Where the pattern does not start, `replace` keeps the first character and continues with the rest |
| Extract.Marker | app.py:24 | Definition of the f-string marker `{{key}}`. `Templates.ReplaceHole` and `Extract.FindAll` state how it is replaced and found |
| Extract.CloseIndex | app.py:17 | The lazy `(.*?)\}\}` after `{{`: it returns the first `}}` with no newline before it; it returns none when every `}}` has a newline before it |
| Extract.FindAll | app.py:17-18 | Every name `findall` returns has no newline and no `}}` inside, and its `{{name}}` marker occurs in the template |
| Extract.ExtractVars | app.py:16-18 | Every extracted name has no newline and no `}}`, and its marker occurs in the template |
| Extract.NoOpeningNoVars | app.py:16-18 | A template without `{{` has no variables |
| Extract.NoVarsIff | app.py:16-18 | The variable set is empty if and only if every `{{` meets a newline or the end before any `}}` |
| Extract.FindAllEmptyIff | app.py:18 | `findall` returns nothing if and only if no `{{` is closed on its line |
| Interpolate.Step | app.py:24 | Definition of one loop step: `replace` of the key's marker by its value. `Interpolate.StepUnchanged` and `Templates.StepRender` state its effect |
| Interpolate.Interpolated | app.py:21-25 | Definition of the left fold of `Step` over the pairs; `Interpolate.InterpolateVars` is proved equal to it and `Templates.InterpolatedRender` characterises it |
| Interpolate.InterpolateVars | app.py:21-25 | The loop over the dict's items returns the left fold of `replace` over the pairs, in insertion order |
| Interpolate.InterpolatedSnoc | app.py:23-24 | One more pair applies one more `replace` to the result so far |
| Interpolate.InterpolatedAppend | app.py:23-24 | Interpolating with a concatenation of dicts interpolates with the first, then the second |
| Interpolate.StepUnchanged | app.py:24 | A step whose marker is absent, or whose value is its own marker, changes nothing |
| Interpolate.InterpolatedUnchanged | app.py:21-25 | Pairs whose markers are absent at their turn leave the template unchanged; with an empty dict, interpolation is the identity |
| Interpolate.LaterMarkerReplaced | app.py:23-24 | For the template `{{a}}`, a value that is the marker of a later key is itself replaced by that key's value |
| Templates.EarlierMarkerSurvives | app.py:23-24 | For the template `{{b}}`, a value that is the marker of an earlier key survives in the output |
| Templates.FindAllSkipsText | app.py:17-18 | The scan passes over plain text without finding anything |
| Templates.FindAllTakesHole | app.py:17-18 | The scan captures a placeholder with a plain name whole and resumes after it |
| Templates.FindAllRender | app.py:17-18 | On a well-formed template `findall` returns exactly its placeholder names, in order |
| Templates.ExtractRender | app.py:16-18 | The variables of a well-formed template are exactly the set of its placeholder names |
| Templates.ExtractExample | app.py:16-18 | `Hi {{first}}, your code is {{code}}. Bye {{first}}` gives `{first, code}` |
| Templates.ReplaceSkipsText | app.py:24 | Replacing a marker passes over plain text unchanged |
| Templates.ReplaceHole | app.py:24 | Replacing the marker of `k` turns placeholder `k` into the value and leaves any other placeholder unchanged |
| Templates.StepRender | app.py:24 | One replacement step on a well-formed template fills exactly the placeholders with that key |
| Templates.FillWellFormed | app.py:24 | Filling a well-formed template with plain text keeps it well formed |
| Templates.InterpolatedRender | app.py:21-25 | With plain keys and values, the sequential replacement equals the simultaneous filling of the keyed placeholders |
| Templates.FillHoles | app.py:24 | Filling removes the filled name from the placeholder names and keeps the others |
| Templates.FillAllHoles | app.py:21-25 | Filling with a dict removes exactly its keys from the placeholder names |
| Templates.InterpolateResolves | app.py:21-25 | After interpolation the remaining variables are exactly the template's variables minus the dict's keys |
| Address.LocalChar | app.py:90 | Definition of the class `[\w\-_.]` |
| Address.LocalPart | app.py:90 | Definition of group 1, `(?!\.)[\w\-_.]*[^.]` |
| Address.Word | app.py:90 | Definition of `\w+` |
| Address.OptionalLabel | app.py:90 | Definition of group 4, `(\.\w+)?` |
| Address.TopLevel | app.py:90 | Definition of group 3, `\.\w+(\.\w+)?[^.\W]` |
| Address.DomainPart | app.py:90 | Definition of groups 2 and 3 after the `@`; `Address.DomainIsLabels` characterises it |
| Address.IsAddress | app.py:90-93 | Definition of `re.fullmatch(email_pattern, email) is not None`; `Address.AcceptedShape` and the example lemmas state what it accepts |
| Address.DomainIsLabels | app.py:90 | Groups 2 and 3 accept exactly two or three dot-separated word labels, the last one at least two characters long |
| Address.AcceptedShape | app.py:90 | An accepted address does not start with `.`, holds an `@`, and ends in a word character |
| Address.NeedsAt | app.py:90 | An accepted address holds an `@` |
| Address.AcceptsAlice | app.py:90 | `alice@example.com` is accepted |
| Address.AcceptsBob | app.py:90 | `bob@example.co.uk` is accepted |
| Address.AcceptsDoubleAt | app.py:90 | The local part's last character may be anything but `.`: `a@@example.com` is accepted |
| Address.RejectsTrailingDot | app.py:90 | `alice.@example.com` is rejected |
| Address.RejectsNoDot | app.py:90 | `bad@com` is rejected |
| Address.RejectsNoAt | app.py:90 | `no-at-sign.example.com` is rejected |
| Address.RejectsThreeDots | app.py:90 | `a@b.c.d.ee` is rejected |
| MailMerge.Dict.Put | app.py:67 | `final_emails[k] = v`: `k` then maps to `v` and every other key keeps its value. An existing key keeps its position; a new key goes last |
| MailMerge.ValDict | app.py:64 | Definition of `val_dict`: each body variable paired with the row's cell, in the order of `vars` |
| MailMerge.RenderRow | app.py:64-66 | Definition of one row's message: title and body each interpolated with that row's `val_dict`; `MailMerge.RenderEmails` and `MailMerge.LastRowWins` state where it ends up |
| MailMerge.Recipients | app.py:67 | Definition of the recipient list: `row[email_key]` for each row, in row order. `OneEntryPerRecipient`, `LastRowWins` and `FinalEmails` state what the dict makes of it |
| MailMerge.Unresolved | app.py:54-57 | The reported names are exactly the body's variables that are not columns; the set is empty if and only if the variables are a subset of the columns |
| MailMerge.UnresolvedExample | app.py:54-57 | Columns `Email, first` and a body using `first` and `missing` report exactly `{missing}` |
| MailMerge.FirstOccurrences | app.py:67 | Dict keys: distinct, the same elements as the recipients, the first row's recipient first |
| MailMerge.FirstOccurrencesOrdered | app.py:67 | Dict keys come in order of their first row |
| MailMerge.LatestMessage | app.py:62-67 | Definition of a recipient's message: the one rendered from the last row carrying it; `MailMerge.LastRowWins` states it |
| MailMerge.LatestMessages | app.py:62-67 | Definition of the dict's values: `LatestMessage` for every recipient; `MailMerge.OneEntryPerRecipient` states its keys |
| MailMerge.FinalEmails | app.py:62-67 | The dict's keys are distinct, are exactly its entries, and are exactly the row recipients |
| MailMerge.OneEntryPerRecipient | app.py:62-67 | Every row's recipient has an entry, and every entry is some row's recipient |
| MailMerge.EntriesInFirstRowOrder | app.py:62-67 | The entries come in the order of their first rows: an earlier entry's first row comes before a later entry's first row |
| MailMerge.LastRowWins | app.py:62-67 | Each entry holds the message rendered from a row with that recipient after which no row carries it |
| MailMerge.FinalEmailsSnoc | app.py:67 | One more row is one more `final_emails[row[email_key]] = ...` |
| MailMerge.RenderEmails | app.py:62-67 | The render loop produces exactly `FinalEmails` of the rows |
| MailMerge.SampleIsFirstRow | app.py:69 | The sample is the first row's recipient with the message of the last row sharing it; there is no entry if and only if there are no rows |
| MailMerge.DuplicateRecipient | app.py:62-67 | Two rows with one recipient give one entry, placed as the first row, holding the second row's message |
| MailMerge.BodyFullyResolved | app.py:64-65 | A well-formed body filled with plain values for all its variables has no placeholder left |
| MailMerge.TitleKeepsOtherColumns | app.py:64-66 | A title placeholder naming something other than a body variable stays in the subject |
| MailMerge.ParamsFor | app.py:97-104 | Definition of one batch entry: sender, the single recipient, the subject and the markdown-converted body; `MailMerge.AcceptedSound` states it |
| MailMerge.AcceptedParams | app.py:89-105 | Definition of the batch: the dict's entries, in key order, whose key passes the pattern. `AcceptedSound`, `AcceptedComplete` and `AcceptedInOrder` characterise it exactly |
| MailMerge.AcceptedSound | app.py:92-105 | Every batch entry has a single recipient that is a dict key and passes the pattern, with that key's subject and rendered body |
| MailMerge.AcceptedComplete | app.py:92-95 | Every dict key that passes the pattern gets a batch entry; the others are skipped |
| MailMerge.AcceptedInOrder | app.py:92-105 | The batch follows the dict's key order |
| MailMerge.BuildParams | app.py:89-105 | The filter loop with `continue` produces exactly `AcceptedParams` of the dict |
| MailMerge.Run | app.py:47-105 | Failures come in this order: missing key column (only on a table with rows), unresolved body variables (the exact difference), no rows. It succeeds if and only if the key is a column, every body variable is a column and there is a row. On success it returns the first row's recipient as the sample and the filtered batch of `FinalEmails` |

## Left out

- Environment and configuration (`load_dotenv`, `RESEND_API_KEY`, `SENDER`): the sender is a parameter.
- Interactive prompts, the preview confirmation and its abort: the file paths, the email key and the title template are parameters.
- Reading the CSV with pandas: the table is a set of column names and a sequence of rows mapping every column to its text.
  - Non-string cells are not modelled. Neither are pandas' own parsing rules.
- `drop_duplicates`: its result is discarded. Only the `KeyError` it raises on a missing key column of a non-empty table is modelled.
- Markdown-to-HTML conversion: an uninterpreted function parameter `markdown`.
- File writes, `mkdir`, opening the browser, and the batch send to the provider. The model stops at the batch it would send and at the sample's recipient and HTML.
- Coloured printing and `exit(1)`: a halt is a `Failure` value. A warning for a skipped address is not modelled.
- The iteration order of the Python set `vars`: a parameter `vars` that must list the body's variables, each once.
- The Unicode meaning of `\w`: a parameter `isWord`. The examples assume only that ASCII letters, digits and `_` are word characters and that `.` and `@` are not.
- Python's general regular-expression engine: only the two patterns of the script are modelled.
- `str.replace` with an empty pattern: it is never called, since a marker is never empty.
