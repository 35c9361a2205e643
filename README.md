# Event credentials by QR code: a Dafny model

The program issues entry credentials for an event and checks them at the gate.
When an organiser fills in an attendee's name, ID and email, it builds a payload
string and saves a QR image of that payload under a file name made from the
attendee's name. At the gate, each decoded payload is looked up in the registry
`registro_escaneados.txt`. That registry is an append-only text file with one
payload per line. A payload already in the registry is reported as a duplicate.
Any other payload is reported as a first use and appended to the file.

The model covers:

- the file-name sanitiser (`sanitize_filename`), in module `Sanitizer`;
- the generate decision of `on_generate_qr`, in module `Credentials`: reject on an empty
  field, otherwise build the payload and the image path;
- the registry file as text, and what the loader reads back from it, in module
  `ScanLog`. Python's line iteration and `str.strip()` are modelled exactly, up to the
  character classes and text-mode newline translation (see "Left out");
- the registry as a stateful object (`ScanRegistry.Registry`). Its methods are
  `Load` (`cargar_registro`), `Record` (`guardar_codigo_escanado`), `Validate`
  (`procesar_qr`) and `ValidateAll` (the scan loop calling `procesar_qr` once per decoded
  payload).

Python decides `\w` and whitespace from the Unicode tables. Here both classes are a
parameter, `Text.CharClass`, and only these facts about them are used:

- the classes are disjoint;
- `_` is a word character;
- space, tab, newline and carriage return are whitespace.

Every property below therefore holds for the real tables as well.

The source's behaviour, stated and proved:

- **The loader and the writer disagree.** The loader strips every line it reads. The
  writer stores the payload raw. So a payload that is not *canonical* (one with
  surrounding whitespace or a newline inside) is never read back. Such a payload is a
  first use every time it is shown (`Registry.Validate`, `ScanTwice`). A payload
  `a\nb` is read back as the two entries `a` and `b` (`RecordedPayloadSplits`).
- **A file without a final newline loses its last entry** once the next payload is
  glued onto that line (`UnterminatedFileLosesEntry`). For this reason, the
  append-only promises of `Record`, `Validate` and `ValidateAll` are stated for a
  newline-terminated file. Every file the program writes itself is one.
- **Spaces are replaced one at a time.** The sanitiser turns each space into an
  underscore and keeps tabs and other whitespace. It does not collapse a run of
  whitespace into a single underscore. The model follows the code.

## Model

| member | source | states |
|---|---|---|
| Text.TrimEnd | main.py:45 | The right half of `str.strip()`: the result is a prefix of the input, everything cut off is whitespace, and the result does not end in whitespace. |
| Text.TrimStart | main.py:45 | The left half of `str.strip()`: the result is a suffix of the input, everything cut off is whitespace, and the result does not start in whitespace. |
| Text.Strip | main.py:25 | `str.strip()` never lengthens its input, and its result neither starts nor ends with whitespace. |
| Text.StripSlice | main.py:25 | Strip keeps one contiguous slice of its input and removes only whitespace on either side of it. |
| Text.StripOnlyRemoves | main.py:45 | Strip never introduces a character that its input lacks. |
| Text.StripFixedIff | main.py:25 | Strip leaves a string unchanged exactly when the string has no leading or trailing whitespace (both directions). |
| Text.StripIdempotent | main.py:25 | Stripping twice is the same as stripping once. |
| Text.StripIgnoresTrailingSpace | main.py:45 | A whitespace character appended at the end, such as a line's newline, does not change the stripped text. |
| Text.CanonicalIff | main.py:45-50 | A payload is canonical (no newline, no surrounding whitespace) exactly when it has no newline and Strip leaves it unchanged. |
| Sanitizer.Sanitize | main.py:24-25 | `sanitize_filename`: filter, then strip, then replace spaces. Its properties are carried by `SanitizeAlphabet`, `SanitizeTrimmed`, `SanitizeIdempotent` and `SanitizeIgnoresTrailingSpace`. |
| Sanitizer.KeepWordAndSpace | main.py:25 | `re.sub(r'[^\w\s]', '', s)`: the result is no longer than the input, and every character of it is a word or whitespace character. |
| Sanitizer.KeepCounts | main.py:25 | The filter only deletes: the result is a sub-multiset of the input, and every word or whitespace character keeps its count. |
| Sanitizer.KeepAppend | main.py:25 | The filter distributes over concatenation. |
| Sanitizer.KeepAllKept | main.py:25 | A string made only of word and whitespace characters passes the filter unchanged. |
| Sanitizer.ReplaceSpaces | main.py:25 | `s.replace(" ", "_")`: same length, and at each position a space becomes `_` while every other character stays. |
| Sanitizer.ReplaceSpacesNoSpace | main.py:25 | Replacing spaces leaves a string without spaces unchanged. |
| Sanitizer.SanitizeAlphabet | main.py:25 | Every character of a sanitised name is a word character, or whitespace other than a space. No space is left. |
| Sanitizer.SanitizeTrimmed | main.py:25 | A sanitised name has no leading or trailing whitespace. |
| Sanitizer.SanitizeIdempotent | main.py:25 | Sanitising a sanitised name gives it back unchanged. |
| Sanitizer.SanitizeIgnoresTrailingSpace | main.py:25 | `name` and `name + " "` sanitise to the same file-name stem. |
| Credentials.Payload | main.py:143 | The payload f-string with the three fields inserted verbatim. Its properties are carried by `PayloadFraming` and `PayloadAmbiguous`. |
| Credentials.ImagePath | main.py:144 | The image path `assets/<sanitised name>_qr_code.png`. Its properties are carried by `BlankFieldsAccepted` and `SecondIssueOverwrites`. |
| Credentials.Generate | main.py:133-144 | The request is rejected with `MissingField` exactly when name, ID or email is the empty string. Otherwise the credential is the payload template with the fields verbatim, and the path `assets/<sanitised name>_qr_code.png`. |
| Credentials.Issue | main.py:140-147 | On the image files: nothing is written on rejection. Otherwise exactly one file, at the credential's path, is set to the payload, and every other file is unchanged. |
| Credentials.BlankFieldsAccepted | main.py:133-140 | Whitespace-only fields are not empty, so they are accepted, and the image goes to `assets/_qr_code.png`. |
| Credentials.PayloadFraming | main.py:143 | The payload starts with `Evento: Persona: ` and the name, and ends with the email. |
| Credentials.PayloadIndependentOfSanitising | main.py:140-143 | Whether a request is accepted, and the payload it gets, are the same for any two character classes. |
| Credentials.PayloadAmbiguous | main.py:143 | The template escapes nothing: two different (name, ID) pairs give the same payload. |
| Credentials.SecondIssueOverwrites | main.py:140-147 | A second attendee whose name differs only by a trailing space gets the same image path, and that attendee's payload replaces the first one's. |
| ScanLog.LineLength | main.py:44-45 | The first line of the file ends at the first newline, included, or at the end of the file. |
| ScanLog.Lines | main.py:44-45 | The lines `for line in f` yields. Its properties are carried by `LinesJoin`, `LineShape` and `LinesAppend`. |
| ScanLog.LinesJoin | main.py:44-45 | Iterating over the file's lines loses nothing: the lines joined back give the file. |
| ScanLog.LineShape | main.py:44-45 | Every line is non-empty, holds a newline at most as its last character, and every line but the last ends with one. |
| ScanLog.LineLengthAppend | main.py:48-50 | Once the file holds a newline, its first line is the same whatever is appended. |
| ScanLog.LinesAppend | main.py:48-50 | Appending to a newline-terminated file keeps all old lines and adds the lines of the appended text after them. |
| ScanLog.LinesOfOneLine | main.py:44-45 | Text with a newline at most at its end is read as one line. |
| ScanLog.LinesOfEntry | main.py:50 | One record `p + "\n"`, with no newline in `p`, is read as exactly one line. |
| ScanLog.Entries | main.py:45 | `set(line.strip() for line in f)`. Its properties are carried by `EntriesAreCanonical`, `EntriesAppend`, `EntriesOfEntry` and `RecordedCanonicalIsEntry`. |
| ScanLog.StripAllAppend | main.py:45 | The stripped-line set of two runs of lines is the union of theirs. |
| ScanLog.EntriesAppend | main.py:45-50 | Appending to a newline-terminated file keeps every entry and adds those of the appended text. |
| ScanLog.StrippedLineCanonical | main.py:45 | A line, once stripped, is canonical. |
| ScanLog.EntryAt | main.py:45 | Every entry comes from a line of the file. |
| ScanLog.EntriesAreCanonical | main.py:45 | Every entry the loader returns is canonical. |
| ScanLog.NonCanonicalNeverEntry | main.py:45-50 | A non-canonical payload is never an entry, whatever the file holds. |
| ScanLog.EntriesOfSingleLine | main.py:45 | A one-line file holds exactly the stripped line as its entry. |
| ScanLog.EntriesOfEntry | main.py:45-50 | A record `p + "\n"`, with no newline in `p`, reads back as the one entry `strip(p)`. |
| ScanLog.RecordedCanonicalIsEntry | main.py:45-50 | Recording a canonical payload in a newline-terminated file adds exactly that payload to the entries. |
| ScanLog.SplitEntries | main.py:45-50 | Recording `a\nb`, for canonical `a` and `b`, adds exactly the entries `a` and `b`. |
| ScanLog.RecordedPayloadSplits | main.py:45-50 | Recording `a\nb` adds the entries `a` and `b`, and the payload itself is not an entry. |
| ScanLog.UnterminatedFileLosesEntry | main.py:45-50 | When the file's last line `u` has no newline, recording `p` glues the two together, and the entry `u` disappears. |
| ScanRegistry.SnapshotAt | main.py:41-45 | What `cargar_registro` returns at a given turn of a run of scans: nothing while the file is missing, otherwise the entries of the starting text plus the text appended so far. `Registry.ValidateAll` ties each verdict to it. |
| ScanRegistry.AppendedStep | main.py:63-68 | Proof helper for `ValidateAll`: one more validation appends the payload and a newline exactly when the verdict is a first use. |
| ScanRegistry.DecidedStep | main.py:63-68 | Proof helper for `ValidateAll`: a verdict decided by the entries loaded at its turn keeps the whole run decided. |
| ScanRegistry.NonCanonicalStep | main.py:63-68 | Proof helper for `ValidateAll`: one more validation keeps every non-canonical payload so far a first use. |
| ScanRegistry.ValidateStep | main.py:63-68 | Proof helper for `ValidateAll`: one more validation keeps the run's promises. Canonical payloads so far are entries, and a repeat of one is a duplicate, as is a payload the file held at the start. |
| ScanRegistry.Registry.Snapshot | main.py:41-45 | What `cargar_registro` returns for the current file: the empty set when the file is missing, otherwise its entries. `Load` is proved equal to it. |
| ScanRegistry.Registry.Load | main.py:41-45 | A missing file gives the empty set. Otherwise the result is exactly the set of stripped lines of the file, and contains each of them. |
| ScanRegistry.Registry.Record | main.py:48-50 | Appends `p + "\n"` and nothing else, and the file exists afterwards. If the old file was newline-terminated, its entries are kept, those of the record are added, and the added entry is `p` itself when `p` is canonical. |
| ScanRegistry.Registry.Validate | main.py:155-165 | Duplicate exactly when the payload is among the loaded entries; then nothing changes. Otherwise the payload is recorded once. A non-canonical payload is always a first use. From a newline-terminated file no entry is lost, a canonical payload is an entry afterwards, and a first use adds exactly that payload. |
| ScanRegistry.Registry.Advance | main.py:63-68 | One turn of the scan loop validates the next payload and keeps the run's progress invariant. That invariant includes the file's existence and text, and the fact that each verdict so far is a duplicate exactly when its payload was loaded at its turn. |
| ScanRegistry.Registry.ValidateAll | main.py:63-68 | Each verdict is a duplicate exactly when its payload is among the entries loaded at its turn (`SnapshotAt`). The file exists at the end exactly when it existed before or some verdict was a first use. Its text is the old text plus each first-use payload and its newline, in order, and the final entries are `SnapshotAt` of the whole run. Every non-canonical payload is a first use. From a newline-terminated file, no entry is lost, every canonical payload ends up an entry, any repeat of a canonical payload is a duplicate, and so is every payload the file already held. |
| ScanRegistry.ScanTwice | main.py:155-165 | At a fresh gate the first scan of a payload is a first use, and the second is a duplicate exactly when the payload is canonical. |

## Left out

- The Kivy user interface: window, widgets, pop-ups, button bindings and `Clock` scheduling (main.py:86-125, 168-171). It is presentation and event dispatch only. `Generate` stands for the button handler's decision, and `Issue` for its effect on the image files.
- QR image rendering, `generate_qr_code` (main.py:28-38), which is the external `qrcode` library. An image file is modelled as the payload it encodes. The encode/decode round trip is not modelled.
- The camera loop, `escanear_qr_con_camara` (main.py:53-84): OpenCV capture, `pyzbar` decoding, drawing and the key-press exit are device I/O. Only its effect is modelled: `ValidateAll` validates the decoded payloads in order.
- The creation of `assets` at import time (main.py:17-18), and the `print` logging.
- Real file I/O. The registry file is the pair `fileExists`/`content`, and read or write failures are not modelled.
- The Unicode tables behind `\w` and `str.strip()`, which are abstracted as `Text.CharClass`.
- Text-mode newline translation on read (`\r\n` and a lone `\r` read as `\n`). Lines are split at `\n` only. After stripping this differs only for a `\r` inside a line. Python reads a recorded `a\rb` back as the entries `a` and `b`, while the model reads it as the one entry `a\rb`. So for such a payload `Canonical`, `ScanTwice` and `ValidateAll` describe the model, not Python.
- Concurrency around the check-then-append sequence: the program runs it on one thread.
- ScanRegistry.Registry.ValidateAll: the no-loss and duplicate promises are stated only for a registry file that starts empty or newline-terminated, because `UnterminatedFileLosesEntry` shows they fail otherwise.
