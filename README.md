# mergecap front end, modelled in Dafny

mergecap merges capture files into one output capture. The merging is done by
wiretap's merge engine, which is outside this file. This model covers the three
pieces of `mergecap.c` that mergecap itself implements:

1. **The argument-file tokenizer.** This is `parse_command_line_from_file` with
   `my_string_copy`, in module `ArgFile`, specified by module `ArgText`.
   - The file's bytes are read into a 1024-byte stack buffer, at most 1023 of them, and a NUL is written after them.
   - The buffer is cut at the first newline, then at the first carriage return.
   - A counting pass counts the maximal runs of characters other than space and tab.
   - A filling pass builds a NULL-terminated argv. Slot 0 holds the program name; each later slot holds one copied token.

   The buffer is an `array<char>` and the walking pointer is an index. The two passes are `while` loops that share the helpers `SkipBlanks`, `SkipToken` and `NextToken`, and they are proved against the functional specification `Fields`. A C string is modelled as its memory up to and including its NUL. An argv slot is `Some(chars)`, or `None` for a NULL pointer.
2. **The option loop and settings resolution of `original_main`.** This is module `Settings`.
   - The getopt loop records each option in its local variable. `-a` toggles append, and for every option with an argument the last occurrence wins. Help, version, an invalid name or a bad option end option processing.
   - The steps after the loop, in their fixed order:
     1. pcapng becomes the default file type;
     2. an output name is required, then at least one input;
     3. the compression is resolved: an explicit `--compress` wins, else the extension after the last `.`, else none;
     4. the three capability checks run;
     5. the IDB merge mode defaults to "all same";
     6. the merge engine is called.
   - The loop is `ScanOptions`. It is proved against `Replay`, which runs one case of the switch per option. A lemma ties `Replay` to the declarative `OptionsSeen`, where each local is decided by the last option of its kind.
3. **The progress callback `merge_callback`.** This is module `Callback`. For the frame-type event with per-packet encapsulation, it searches for the first input whose encapsulation differs from that of input 0. It never asks the merge to stop.

The wiretap lookups and capability queries, `get_nonzero_uint32`, and the merge
engine are foreign calls. They become fields of the `Settings.Library` value that
the caller passes in. Opening and reading the argument file is I/O. The file is
passed as `None` (fopen failed) or as its full contents, and fread's cut to 1023
bytes is modelled explicitly. The callback's stderr text is replaced by a `Report`
value carrying what that text says.

Some behaviours are modelled as the code has them:
- **Stray NUL bytes.** The NUL written after the bytes read turns the buffer into a C string, so the text also ends at the first NUL byte in the file; `Cut` includes that cut. The cuts at newline and carriage return are both in the code.
- **Invalid `--compress` name.** It jumps to `clean_exit` without clearing `status`, so the exit status is 0. Invalid `-F` and `-I` values give 2 (`Settings.ExitStatus`).
- **No input files.** This returns 1 directly. Every other failure exits with 2.

## Model

| member | source | states |
|---|---|---|
| ArgFile.ParseCommandLineFromFile | wireshark-4.4.6/mergecap.c:463-602 | Returns -1 exactly when the file cannot be opened, zero bytes are read, or the program name is NULL; otherwise returns 0. On success argc is 1 plus the number of fields of the cut text. argv has argc+1 slots: slot 0 is a copy of the program name, slot argc is NULL, and slot i holds the i-th field as a fresh C string. |
| ArgFile.StringCopy | wireshark-4.4.6/mergecap.c:452-460 | NULL maps to NULL. Otherwise the copy is a well-formed C string holding the characters of the source up to and including its terminator. |
| ArgFile.Read | wireshark-4.4.6/mergecap.c:488 | The buffer begins with the first min(size, 1023) bytes of the file, and that count is returned. |
| ArgFile.ReadBufferHoldsLimit | wireshark-4.4.6/mergecap.c:502 | Once the NUL is written after the bytes read, the buffer's C string is those bytes cut at their first NUL. |
| ArgFile.TerminateAt | wireshark-4.4.6/mergecap.c:509-512 | After strchr and the NUL write, the buffer's C string is the previous one cut before its first occurrence of the character. |
| ArgFile.SkipBlanks | wireshark-4.4.6/mergecap.c:522 | Advances over exactly the spaces and tabs at p. It stops on a non-blank character or the terminator, and it changes no field of the rest of the text. |
| ArgFile.SkipToken | wireshark-4.4.6/mergecap.c:529 | From a non-blank character, advances to the end of the run of non-blanks. The run it passes is the next field of the text. |
| ArgFile.NextToken | wireshark-4.4.6/mergecap.c:560-566 | Either the text from p holds no more fields and the pointer is at the terminator, or [start, end) is the next field and the remaining fields follow it. |
| ArgFile.CountArguments | wireshark-4.4.6/mergecap.c:518-530 | The counting pass yields 1 plus the number of fields of the cut text. |
| ArgFile.FillArguments | wireshark-4.4.6/mergecap.c:555-594 | Slots 1..argc-1 receive the fields in order, each as a C string, and slot argc is NULL. Slot 0 is left as it was. |
| ArgText.CutShape | wireshark-4.4.6/mergecap.c:488-512 | The cut text is a prefix of the file of at most 1023 bytes, with no NUL, newline or carriage return in it. |
| ArgText.CutIgnoresAfterStop | wireshark-4.4.6/mergecap.c:502-512 | A NUL, newline or carriage return within the first 1023 bytes hides everything after it: changing what follows does not change the cut text. |
| ArgText.CutIgnoresBeyondLimit | wireshark-4.4.6/mergecap.c:488 | Bytes after the first 1023 never affect the cut text. |
| ArgText.FieldsAreFields | wireshark-4.4.6/mergecap.c:558-591 | Every token is non-empty and contains no space or tab. |
| ArgText.FieldsConcat | wireshark-4.4.6/mergecap.c:558-591 | The tokens, concatenated in index order, are exactly the text with its spaces and tabs removed, byte for byte. |
| ArgText.FieldsCharsFromText | wireshark-4.4.6/mergecap.c:585-586 | A character that is not in the text is in no token. |
| ArgText.FieldsCountRuns | wireshark-4.4.6/mergecap.c:518-530 | The number of tokens equals the number of maximal runs of non-blank characters, counted as blank-to-non-blank transitions. |
| ArgText.FieldsJoin | wireshark-4.4.6/mergecap.c:555-591 | Splitting well-formed tokens joined by single spaces gives back the same tokens, so tokenizing loses nothing. |
| ArgText.TerminateAtChr | wireshark-4.4.6/mergecap.c:509-512 | Writing a NUL where strchr found a character leaves the C string cut before that character. If strchr finds nothing, the string is already cut there. |
| ArgText.StrChr | wireshark-4.4.6/mergecap.c:509 | strchr finds the first occurrence of a non-NUL character before the terminator, or reports that there is none. |
| Settings.ScanOptions | wireshark-4.4.6/mergecap.c:276-355 | Processing stops at the first option that ends it (help, version, an invalid -F, -I or --compress name, a bad option) and returns that reason. Otherwise the locals are those `OptionsSeen` describes. |
| Settings.ReplayKeepsLast | wireshark-4.4.6/mergecap.c:276-355 | Running the switch option by option matches the declarative description: append toggled once per -a, verbose set by any -V, the last occurrence of each option with an argument deciding its local, and the initial values otherwise. |
| Settings.OptionsSeenSnoc | wireshark-4.4.6/mergecap.c:279-335 | One more option changes exactly its own local, as its switch case does, and leaves the others alone. |
| Settings.AppendOnSnoc | wireshark-4.4.6/mergecap.c:280 | Each -a flips append, so after k of them append is on exactly when k is odd. |
| Settings.AcceptedFileType | wireshark-4.4.6/mergecap.c:283-292 | If no option ended processing, the file type is valid or still unknown. |
| Settings.StrRChr | wireshark-4.4.6/mergecap.c:384 | strrchr finds the last occurrence of the character, or reports that there is none. |
| Settings.ResolvedCompression | wireshark-4.4.6/mergecap.c:379-391 | An explicit compression is kept. Otherwise the extension after the last `.` is looked up, and unknown falls back to uncompressed. The result is never "unknown". |
| Settings.ChooseCompression | wireshark-4.4.6/mergecap.c:379-391 | The imperative two-step compression resolution gives `ResolvedCompression`. |
| Settings.Settle | wireshark-4.4.6/mergecap.c:357-442 | The post-option steps in their order: pcapng default, output name, inputs, compression, the three checks, IDB mode default, merge call. Exit status 1 for missing inputs, 0 for a successful merge, 2 otherwise. |
| Settings.SettledMergeIsSound | wireshark-4.4.6/mergecap.c:357-421 | A merge starts exactly when an output name and an input are given and all three checks pass. The engine then gets: the operands; "-" meaning stdout; the append flag; the IDB mode given, or all-same if none was given; the compression `ResolvedCompression` chooses, which is known, writable, and none or supported by the file type; and the file type given, which is valid, or pcapng if none was given. |
| Settings.OriginalMain | wireshark-4.4.6/mergecap.c:276-442 | The first stopping option decides the outcome; otherwise the last-wins option values go through the post-option steps. A merge gets append on exactly when -a appears an odd number of times, plus a real IDB mode, a writable compression compatible with the file type, and a valid file type. |
| Callback.MergeCallback | wireshark-4.4.6/mergecap.c:138-201 | Never asks to stop. Lists every input's name and file type. For per-packet encapsulation it reports the smallest index i >= 1 whose encapsulation differs from input 0's, or no index exactly when all inputs match input 0. The other events report only their own data. |

## Left out

- The merge engine (`merge_files`, `merge_files_to_stdout`, wireshark-4.4.6/mergecap.c:424-436) is not part of this model. Its boolean result is an opaque field of `Settings.Library`.
- The wiretap name lookups, capability queries and `get_nonzero_uint32` are foreign calls and become fields of `Settings.Library`. `get_nonzero_uint32` exits the process on an invalid number, and that exit is not modelled.
- `ws_getopt_long` is not modelled. Options arrive already parsed, in command-line order, and the operands come separately. Which argument strings become which options (short-option bundling, permutation of argv) is not captured.
- Process setup and cleanup, the SHELLGEN_LOG debug prints, `print_usage` and the `list_*` helpers are left out as I/O. This covers logging, configuration, `wtap_init`, `wtap_cleanup` and `free_progdirs`.
- All `fprintf` text, including the callback's diagnostics, is left out. Each callback event returns a `Report` of the values its text names.
- `main` (wireshark-4.4.6/mergecap.c:604-668) is a fuzzing wrapper around file I/O and time. Its only decision is to parse argv[1] when argc >= 2.
- The commented-out code after `main` is dead text.
- Failures of `malloc` in `parse_command_line_from_file` and `my_string_copy` are not modelled; allocation always succeeds. Memory freeing is not modelled either.
- ArgFile.ParseCommandLineFromFile: returns a null argv and argc 0 on every failure. The C code leaves the caller's variables alone when fopen fails or nothing is read. When the program name is NULL, it leaves argv pointing at the freed array. The caller in `main` starts both variables at NULL and 0 and never uses them after a failure.
- The file's stdio text-mode translation and short reads from fread are not modelled. The model reads the first min(size, 1023) bytes of the given contents.
- Compression identifiers beyond "none", "unknown" and an opaque numbered compressed format are not modelled; wiretap owns them.
