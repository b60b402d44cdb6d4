# PaperPulse backend core in Dafny

PaperPulse stores uploaded documents and extracts metadata from them with a
form-recognizer service. This project models the deterministic part of its
backend:

- the path utilities. They map a file extension to a MIME type, ignoring case,
  and a MIME type to the recognizer's input format, where only
  `application/pdf` is PDF.
- the `DocumentMetadata` record, a mutable class. A fresh record has a GUID id,
  a creation timestamp and empty strings and dictionaries everywhere else.
- the document processor's `ProcessDocumentAsync`. It sets the file name and
  the lower-cased extension, adds one `Page<N>` entry per recognized page
  (the page's lines joined by spaces), then sets `Status`. Everything thrown
  is caught: `Status` becomes `"Error"` and the message goes under `"Error"`.

The recognizer call is an input value, `Recognition`: either the pages it read
or the exception it raised. The GUID and the clock reading are parameters of the
record's constructor.

A `Dictionary` is a class whose `Add` returns the exception it would throw on
a key that is already there. The processor is a method with a loop over the
pages. It is proved against `Process`, which gives the final status and
entries as a function of the recognizer's answer. `Process` in turn rests on
`AddAll`, the outcome of a run of `Add` calls, with `ToMap` as its reference
definition. The main results:

- a page number that repeats makes the second `Add` throw. The pages added
  before it stay, and `"Error"` holds the duplicate-key message.
- `"Error"` can never clash with a `Page<N>` key, so the catch block never
  throws.
- the status is `"Processed"` exactly when no `"Error"` key is present, and
  exactly when the recognizer answered with distinct page numbers.

Two facts about the code are worth stating on their own:

- the processor stores the lower-cased extension (`".pdf"`) as `ContentType`,
  not a MIME string.
- a fresh record's `Status` is `""`.

Modules: `Wrappers` (Option, Exception), `Text` (the .NET string operations the
code calls), `Collections` (Dictionary), `PathUtils`, `Models`
(DocumentMetadata), `Services` (the processor).

## Model

| member | source | states |
|---|---|---|
| `PathUtils.GetContentTypeFromExtension` | backend/Utils/PathUtils.cs:12-20 | the result is one of the five MIME strings; it is each known type exactly when the lower-cased extension is `.pdf`, `.doc`, `.docx` or `.txt`, and `application/octet-stream` exactly when it is none of them |
| `PathUtils.ContentTypeIgnoresCase` | backend/Utils/PathUtils.cs:13 | the lookup gives the same result for an extension and its lower-case form |
| `PathUtils.KnownExtensionTypes` | backend/Utils/PathUtils.cs:15-18 | `.pdf`, `.doc`, `.docx`, `.txt` map to their four MIME strings |
| `PathUtils.UpperCaseExtensionTypes` | backend/Utils/PathUtils.cs:13-17 | `.PDF` and `.DocX` map like their lower-case forms |
| `PathUtils.UnknownExtensionTypes` | backend/Utils/PathUtils.cs:19 | `""`, `pdf` (no dot) and `.png` map to `application/octet-stream` |
| `PathUtils.GetFormContentTyp` | backend/Utils/PathUtils.cs:22-27 | the result is Pdf or Json, and Pdf exactly when the input is `application/pdf` |
| `PathUtils.FormContentTypIsCaseSensitive` | backend/Utils/PathUtils.cs:23-26 | `APPLICATION/PDF` gives Json, while `.PDF` through both lookups gives Pdf |
| `PathUtils.ExtensionToFormat` | backend/Utils/PathUtils.cs:12-27 | chaining the two lookups gives Pdf exactly when the lower-cased extension is `.pdf` |
| `Text.ToLowerInvariant` | backend/Utils/PathUtils.cs:13 | same length; every ASCII capital is lower-cased and every other character is kept |
| `Text.LowerIdempotent` | backend/Utils/PathUtils.cs:13 | lower-casing twice equals lower-casing once |
| `Text.LowerFixesExactlyLowerStrings` | backend/Services/DocumentProcessor.cs:28 | lower-casing leaves a string unchanged exactly when it holds no capital |
| `Text.GetExtension` | backend/Services/DocumentProcessor.cs:28 | the result is `""` exactly when no position starts an extension (a `.` that is not last and has no `.` or separator after it); otherwise it is the suffix from that position |
| `Text.ExtensionShape` | backend/Services/DocumentProcessor.cs:28 | a non-empty extension is a suffix of the path: a dot plus at least one character, none of them a dot or separator |
| `Text.Join` | backend/Services/DocumentProcessor.cs:41 | for one part or more, the result is as long as the parts together plus one separator between each pair of neighbours, and it starts with the first part |
| `Text.JoinSnoc` | backend/Services/DocumentProcessor.cs:41 | joining one more part appends the separator and that part to the earlier result |
| `Text.SplitJoin` | backend/Services/DocumentProcessor.cs:41 | cutting the joined parts at the separator gives the parts back when none of them contains it |
| `Text.NatToString` | backend/Services/DocumentProcessor.cs:40 | the result is a canonical decimal numeral (digits only, no leading zero unless it is `0`) whose value is the number; it is one digit long exactly when the number is below 10 |
| `Text.NatNumeralUnique` | backend/Services/DocumentProcessor.cs:40 | every canonical numeral is the numeral of its own value, so numerals and naturals correspond one to one |
| `Text.IntToString` | backend/Services/DocumentProcessor.cs:40 | the result is a canonical integer numeral whose value is the number, with a leading `-` exactly when the number is negative |
| `Text.IntNumeralUnique` | backend/Services/DocumentProcessor.cs:40 | every canonical integer numeral is the numeral of its own value |
| `Text.NatToStringInjective` | backend/Services/DocumentProcessor.cs:40 | distinct naturals have distinct numerals |
| `Text.IntToStringInjective` | backend/Services/DocumentProcessor.cs:40 | distinct integers have distinct numerals |
| `Collections.Dictionary.constructor` | backend/Models/DocumentMetadata.cs:14-15 | a new dictionary is empty |
| `Collections.Dictionary.Add` | backend/Services/DocumentProcessor.cs:40 | a new key is inserted with its value; an existing key leaves the entries unchanged and yields the duplicate-key exception |
| `Collections.DuplicateKey` | backend/Services/DocumentProcessor.cs:40 | the duplicate-key message ends with the key |
| `Collections.AddAll` | backend/Services/DocumentProcessor.cs:38-42 | a run of `Add` calls from an empty dictionary only ever holds keys of the pairs it was given |
| `Collections.CollisionNamesPresentKey` | backend/Services/DocumentProcessor.cs:38-42 | a run that throws stops at a key already in the dictionary, and the exception's message names that key |
| `Collections.AddAllDistinct` | backend/Services/DocumentProcessor.cs:38-42 | with distinct keys no `Add` throws, and the dictionary equals the reference map of the pairs |
| `Collections.AddAllDistinctContents` | backend/Services/DocumentProcessor.cs:38-42 | with distinct keys the dictionary holds exactly one entry per pair, with that pair's value, and no other key |
| `Collections.AddAllRepeated` | backend/Services/DocumentProcessor.cs:38-42 | when position j first repeats a key, the run ends with the entries of the pairs before j and the duplicate-key exception for that key |
| `Collections.CollisionSticks` | backend/Services/DocumentProcessor.cs:38-42 | once an `Add` has thrown, later pairs change nothing |
| `Collections.AddAllSucceedsIffDistinct` | backend/Services/DocumentProcessor.cs:38-42 | a run of `Add` calls completes exactly when no key repeats |
| `Collections.ToMapKeys` | backend/Services/DocumentProcessor.cs:38-42 | the reference map's keys are exactly the pairs' keys |
| `Models.DocumentMetadata.constructor` | backend/Models/DocumentMetadata.cs:9-15 | the id and date are the given GUID and clock reading; file name, content type and status are `""`; both dictionaries are new and empty |
| `Services.PageKey` | backend/Services/DocumentProcessor.cs:40 | a page key is `Page` followed by a canonical integer numeral whose value is the page number, and it is never the error key |
| `Services.PageKeyUnique` | backend/Services/DocumentProcessor.cs:40 | every string of that form is the key of the number it spells out |
| `Services.PageKeyInjective` | backend/Services/DocumentProcessor.cs:40 | distinct page numbers give distinct keys |
| `Services.PageText` | backend/Services/DocumentProcessor.cs:41 | a page with lines gives their texts with one space between neighbours: as long as the texts together plus one per gap, and starting with the first line's text |
| `Services.PageEntries` | backend/Services/DocumentProcessor.cs:40-41 | the loop hands `Add` one pair per page, in page order: the page's key and its text |
| `Services.PageTextShape` | backend/Services/DocumentProcessor.cs:41 | a page without lines gives `""`; one line gives its text; lines free of spaces can be recovered by splitting |
| `Services.DistinctPagesDistinctKeys` | backend/Services/DocumentProcessor.cs:38-42 | two page keys clash exactly when the two page numbers are equal |
| `Services.ErrorKeyNotAPageKey` | backend/Services/DocumentProcessor.cs:40-50 | `"Error"` is never among the page keys, so the catch block's `Add` cannot throw |
| `Services.Process` | backend/Services/DocumentProcessor.cs:31-52 | the status is `Processed` or `Error`; it is `Processed` exactly when no `"Error"` key is present; a recognizer failure gives `Error` and exactly `{"Error": message}` |
| `Services.ProcessedIffDistinctPages` | backend/Services/DocumentProcessor.cs:38-50 | processing ends `Processed` exactly when the recognizer answered and no page number repeats |
| `Services.ProcessedEntries` | backend/Services/DocumentProcessor.cs:38-44 | with distinct page numbers the entries hold exactly one `Page<N>` key per page, valued as the page's space-joined lines, and no other key |
| `Services.RepeatedPageEntries` | backend/Services/DocumentProcessor.cs:38-50 | when page j first repeats a number, the status is `Error` and the entries are those of pages before j plus `"Error"` with the duplicate-key message |
| `Services.TwoPagesExample` | backend/Services/DocumentProcessor.cs:38-44 | pages numbered 1 and 2 give `Page1`, `Page2` and `Processed` |
| `Services.RepeatedPageExample` | backend/Services/DocumentProcessor.cs:38-50 | two pages numbered 1 give the first page's `Page1`, the duplicate-key `"Error"` entry and `Error` |
| `Services.ContentTypeIsExtension` | backend/Services/DocumentProcessor.cs:28 | the recorded content type is `""` or starts with a dot, and is never one of the MIME strings |
| `Services.AddPages` | backend/Services/DocumentProcessor.cs:38-42 | the page loop leaves the dictionary and the thrown exception exactly as the run of `Add` calls over the page entries does |
| `Services.ProcessDocument` | backend/Services/DocumentProcessor.cs:23-55 | returns a new record with the given id, date and file name and the lower-cased extension; its status and entries are `Process` of the recognizer's answer; `Confidence` is new and stays empty |

## Left out

- The recognizer call (`StartRecognizeContentAsync`, `WaitForCompletionAsync`): a network call, replaced by the `Recognition` input.
- Other exceptions inside the try block, such as from logging or a null `Lines`: they are not modelled. Only the recognizer's failure and `Add` on a duplicate key are.
- Logging: it has no effect on the record.
- `async`/`await`: the work is sequential and is modelled synchronously.
- `Guid.NewGuid` and `DateTime.UtcNow`: they are constructor parameters. GUID uniqueness across records is a property of the environment and is not proved.
- `Models.DocumentMetadata.constructor`: `Confidence` holds `real` values, not 32-bit floats. Nothing writes to it.
- `Text.ToLowerInvariant`: lower-cases ASCII letters only, not the full Unicode invariant mapping.
- `Text.GetExtension`: treats both `/` and `\` as directory separators, as on a Windows host. On Linux only `/` is one.
- `Text.IntToString`: uses invariant-culture formatting, so the negative sign is always `-`.
- Dictionary enumeration order: entries are a `map`. The order of keys in the serialized record is not modelled.
- The HTTP, blob and database functions, the host wiring and the React front end: they are outside the modelled core.
