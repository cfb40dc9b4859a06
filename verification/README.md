# Document converter: selection and conversion controller

This project models the controller of a small desktop utility that converts
PDF files to Word documents and back. Everything around the controller is
left out: the window, the byte-level converters (`pdf2docx`, `docx2pdf`) and
the OS launcher. What remains is a small state machine. Its state is:

- the selected path;
- the output path;
- the pending conversion type (`""`, `pdf_to_word` or `word_to_pdf`, written
  `Unset`, `PdfToWord`, `WordToPdf`);
- four button-disabled flags: select, PDF→Word, Word→PDF and open;
- whether the progress ring is visible.

Each event handler is a pure function. It takes the state and the outside
world's answers, and returns a `Step`: the next state, the log messages
written (text and style), and the one external action taken (show the picker,
run a converter, launch a file).

- `Paths` (paths.dfy): the string operations the handlers use. These are
  POSIX `os.path.splitext`, `os.path.basename` and ASCII `str.lower`.
- `Controller` (controller.dfy): the state record and the three handlers.
  - `Pick` handles the file-picker result (`ao_escolher`).
  - `Convert` handles a conversion click (`converter_documento`).
  - `Open` is the guard of `open_file`.
  - The module also defines output names and the rules about them.
- `Lifecycle` (lifecycle.dfy): the handlers wired to the buttons. A click on a
  disabled button does nothing. This module also holds the invariant of every
  reachable state and some worked scenarios.

Inputs from the outside world are parameters:

- the picked files;
- whether the selected file can be opened for reading;
- the `%Y%m%d_%H%M%S` timestamp (a `Timestamp` subset type);
- the converter's outcome: `Done`; `Failed(message)` for an `Exception`, which
  the handler catches; or `Escaped` for a raise outside `Exception` such as
  `SystemExit`;
- whether the output file exists;
- `platform.system()`;
- the launcher's outcome, with the same three cases.

The model follows the code, including where it behaves differently from what
one might expect of such a tool:

- One might expect a failed conversion to return to a "ready to retry" state.
  Instead only the select button comes back, and both conversion buttons stay
  disabled (`ConvertNeedsNewPick`).
- One might expect an unsupported extension to reset the conversion type and
  disable both conversion buttons. Instead the previous type and its enabled
  button are kept, so the converter for the old type can then run on the
  unsupported file (`StaleTypeScenario`).
- One might expect a separator such as `_` between the file name and the
  timestamp. The output name is `root + timestamp + ext`, with none.
- An empty selection or an unreadable file only logs an error. Nothing else
  changes.

## Model

| member | source | states |
|---|---|---|
| Paths.RFind | main.py:76 | the result is -1 or an index holding the character, and no later index holds it (the `rfind` inside `splitext`) |
| Paths.FirstNonDot | main.py:76 | the result is the first index of the range not holding a '.', or the range end when all are dots (the leading-dot scan inside `splitext`) |
| Paths.SplitExt | main.py:76 | root ++ ext is the path; ext is empty or runs from the last '.' of the final component with no later '.' or '/'; a non-empty ext needs a non-dot before it in that component; an empty ext means every dot there is a leading dot |
| Paths.SplitExtUnique | main.py:76 | the POSIX splitext rule admits exactly one split, the one `SplitExt` returns |
| Paths.SplitPlainName | main.py:76 | a dot-free file name followed by one dot-led extension splits exactly at that dot |
| Paths.BaseStart | main.py:82 | the final component starts just after a '/' (or at 0) and holds no '/' |
| Paths.Basename | main.py:82 | the base name is a suffix of the path, holds no '/', and is preceded by '/' unless it is the whole path |
| Paths.Lower | main.py:76 | same length, no ASCII upper-case letter left, and each character is kept or is an upper-case letter moved down by 32 |
| Paths.LowerEqualsIff | main.py:76-83 | lower-casing equals a word with no capitals exactly when the text spells that word in some mixture of letter cases |
| Controller.FormatOfSpelling | main.py:76-89 | a path is taken as PDF (Word) exactly when its extension spells ".pdf" (".docx") in any ASCII letter case |
| Controller.OutputNameSplit | main.py:125-136 | the output name splits back into (source root + timestamp, target extension) |
| Controller.OutputFormatIsTarget | main.py:128-136 | a produced file, picked again, is classified as the opposite format (.docx after PDF→Word, .pdf after Word→PDF) |
| Controller.OutputNeverSource | main.py:128-136 | the output name always differs from the source path, so a conversion never overwrites its own input |
| Controller.OutputNameCollision | main.py:125-136 | two conversions of one source get the same output name if and only if they have the same type and the same one-second timestamp |
| Controller.Pick | main.py:73-95 | no file: only a warning, state unchanged; a file: it becomes the selection, open is disabled, output/select/progress kept; .pdf enables only PDF→Word with type pdf_to_word; .docx is the mirror image; any other extension logs an error and keeps the type and both conversion flags |
| Controller.Convert | main.py:104-148 | empty selection: only the "Selecione um arquivo primeiro" error; unreadable file: only the "Feche o arquivo antes de converter" error; in both, nothing else changes; past the guards, select ends enabled, progress hidden, both conversion buttons disabled; the pending type's converter runs on root + timestamp + target extension, after a "Convertendo PDF para Word..." or "Convertendo Word para PDF..." message; success records that output and enables open; an `Exception` keeps the old output, leaves open disabled and logs the converter's message; a raise outside `Exception` gets the same state from the `finally` cleanup but no error message, so only the start message is logged; with no pending type no converter runs but open is enabled |
| Controller.Open | main.py:58-71 | the state never changes; the launcher is reached exactly when the output path is non-empty and exists, on that path, and it is the one `platform.system()` selects (`os.startfile` on Windows, `open` on Darwin, `xdg-open` otherwise); otherwise only the not-found warning is logged; a launcher `Exception` is logged as an error, and a raise outside `Exception` logs nothing |
| Lifecycle.Dispatch | main.py:163-196 | a click on a disabled button is dropped: same state, no message, no action; a click on the enabled select button only shows the picker |
| Lifecycle.DispatchPreservesInv | main.py:73-148 | every handler keeps the invariant: select enabled, progress hidden, an enabled conversion button agrees with the pending type, and an enabled open button points at root(selection) + some timestamp + the target extension |
| Lifecycle.RunPreservesInv | main.py:73-148 | any sequence of events keeps the invariant |
| Lifecycle.ReachableStates | main.py:23-28 | from start-up, after any events, select is enabled, progress is hidden and at most one conversion button is enabled |
| Lifecycle.EnabledButtonRunsItsConverter | main.py:126-139 | in any state meeting the invariant (every reachable one does), an enabled conversion button on a readable selection runs exactly the converter it names, on the timestamped output name |
| Lifecycle.EnabledOpenLaunches | main.py:58-67 | in a reachable state with open enabled, an existing output reaches the launcher; that output is not the selected file and has extension .docx after PDF→Word or .pdf after Word→PDF |
| Lifecycle.BusyDropsClicks | main.py:116-121 | in the busy state every button click is dropped (picker results are not clicks); handlers run to completion, so no event is ever dispatched in that state |
| Lifecycle.ConvertNeedsNewPick | main.py:117-119 | after any conversion attempt that passes the guards, successful or not, both conversion buttons are disabled and select is enabled |
| Lifecycle.ConversionSucceeds | main.py:126-141 | a successful click on the pending type's enabled button runs that converter, records the output name and enables open |
| Lifecycle.PickPdfThenConvert | main.py:78-81 | picking name.pdf then converting yields name + timestamp + ".docx", with open enabled |
| Lifecycle.PickDocxThenConvert | main.py:83-86 | picking name.docx then converting yields name + timestamp + ".pdf", with open enabled |
| Lifecycle.StaleTypeScenario | main.py:88-89 | after picking name.pdf and then any unsupported path q, PDF→Word stays enabled with type pdf_to_word, and clicking it runs the PDF converter on q into root(q) + timestamp + ".docx" |
| Lifecycle.LockedFileScenario | main.py:109-114 | converting an unreadable selected PDF changes no state, logs only "Feche o arquivo antes de converter", and PDF→Word stays enabled |

## Left out

- Window setup, layout, colours, icons and rendering of the message log. These are presentation only. The log is kept as a sequence of (text, style) entries.
- The converters `pdf2docx.Converter` and `docx2pdf.convert`. They are foreign libraries, so each is an `Outcome` parameter. The model records which one is called and with which paths.
- The file dialog's filter (`allowed_extensions=["pdf", "docx"]`, `allow_multiple=False`). `PickerResult` accepts any paths and any number of files, a superset of what the dialog returns; only the first file is used, as in the handler.
- The file dialog (`escolher_arquivo`). It is I/O. Clicking select only produces a `ShowPicker` action, and the picker's answer arrives as a `PickerResult` event.
- The readability probe `open(..., "rb")`, `os.path.exists`, `datetime.now` and `platform.system`. Each is I/O, a clock or an OS query, so each becomes a parameter.
- `os.startfile`, `open` and `xdg-open`. These launch processes. Only the choice among them (`LauncherFor`) and the guard are modelled.
- `page.update`, the event loop and any exception raised by the UI library itself. Handlers run one at a time, to completion.
- What happens after a raise outside `Exception` leaves a handler is up to the UI framework and the interpreter. The model records the handler's own effect (`Escaped`) and lets later events run.
- Paths.SplitExt: follows POSIX `posixpath`. On Windows, `ntpath` also splits at '\', and that is not modelled.
- Paths.Basename: follows POSIX `posixpath` in the same way. Windows separators are not modelled, and neither is the drive prefix such as `C:` that `ntpath.basename` also strips.
- Paths.Lower: ASCII only. Python's `str.lower` also folds non-ASCII letters. Non-ASCII folding cannot produce ".pdf" or ".docx" from other text, so the classification is unaffected.
- Controller.Pick: a picked file whose `path` is `None` (the framework's web mode) is not modelled. Paths are always strings here.
- Lifecycle.Dispatch: dropping clicks on disabled buttons is how the UI framework behaves. The handlers themselves do not check the flags.
