/**
 * The argument-file tokenizer of mergecap (parse_command_line_from_file and
 * my_string_copy): reads the file into a fixed buffer, cuts the text at the first
 * newline and carriage return, and builds a NULL-terminated argv from its fields.
 *
 * C strings are modelled as the characters of their memory up to and including the
 * terminating NUL; an argv slot is Some(string) or None for a NULL pointer. Opening and
 * reading the file are I/O: the file is given as None (fopen failed) or as its contents.
 */
module ArgFile {
  import opened Wrappers
  import opened ArgText

  /** A well-formed C string: exactly one NUL, at the end. */
  predicate IsCString(s: seq<char>) {
    s != [] && s[|s| - 1] == '\0' && '\0' !in s[..|s| - 1]
  }

  /**
   * my_string_copy: NULL stays NULL; otherwise a new C string with the same characters
   * as src up to its terminator.
   */
  function StringCopy(src: Option<seq<char>>): (copy: Option<seq<char>>)
    requires src.Some? ==> '\0' in src.value
    ensures copy.Some? <==> src.Some?
    ensures copy.Some? ==> IsCString(copy.value) && |copy.value| <= |src.value| &&
                           copy.value == src.value[..|copy.value|]
  {
    match src
    case None => None
    case Some(s) => Some(s[..StrLen(s) + 1])
  }

  /**
   * parse_command_line_from_file. Returns 0 and the new argv and argc, or -1 when the
   * file cannot be opened, nothing is read from it, or the program name is NULL. On
   * failure argv is NULL and argc keeps the 0 the caller initialised it with.
   */
  method ParseCommandLineFromFile(file: Option<seq<char>>, programName: Option<seq<char>>)
    returns (rc: int, newArgv: array?<Option<seq<char>>>, newArgc: int)
    requires programName.Some? ==> '\0' in programName.value
    ensures rc == 0 || rc == -1
    ensures rc == -1 <==> file.None? || file.value == [] || programName.None?
    ensures rc == -1 ==> newArgv == null && newArgc == 0
    ensures rc == 0 ==>
      var fields := Fields(Cut(file.value));
      && newArgv != null
      && newArgc == 1 + |fields|
      && newArgv.Length == newArgc + 1
      && newArgv[0] == StringCopy(programName)
      && newArgv[newArgc] == None
      && forall i :: 1 <= i < newArgc ==> newArgv[i] == Some(fields[i - 1] + ['\0'])
  {
    newArgv, newArgc := null, 0;
    if file.None? {
      return -1, newArgv, newArgc;
    }
    var content := file.value;

    var buffer := new char[BUFFER_SIZE];
    var bytesRead := Read(buffer, content);
    if bytesRead == 0 {
      return -1, newArgv, newArgc;
    }
    buffer[bytesRead] := '\0';
    ReadBufferHoldsLimit(content, buffer[..], bytesRead);

    // Remove newline characters
    TerminateAt(buffer, '\n');
    TerminateAt(buffer, '\r');
    ghost var len := StrLen(buffer[..]);
    assert buffer[..len] == Cut(content);

    var argCount := CountArguments(buffer, len);
    newArgv := new Option<seq<char>>[argCount + 1](_ => None);
    newArgv[0] := StringCopy(programName);
    if newArgv[0].None? {
      return -1, null, 0;
    }
    FillArguments(buffer, len, newArgv, argCount);
    newArgc := argCount;
    rc := 0;
  }

  /** fread(buffer, 1, sizeof(buffer) - 1, file): the first bytes of the file, at most READ_LIMIT. */
  method Read(buffer: array<char>, content: seq<char>) returns (bytesRead: nat)
    requires buffer.Length == BUFFER_SIZE
    modifies buffer
    ensures bytesRead == |Limit(content)| && buffer[..bytesRead] == Limit(content)
  {
    bytesRead := if |content| < READ_LIMIT then |content| else READ_LIMIT;
    forall k | 0 <= k < bytesRead {
      buffer[k] := content[k];
    }
  }

  /** After fread and the terminating NUL, the C string in the buffer is the bytes read up to their first NUL. */
  lemma ReadBufferHoldsLimit(content: seq<char>, b: seq<char>, n: nat)
    requires n < |b| && n == |Limit(content)|
    requires b[..n] == Limit(content) && b[n] == '\0'
    ensures '\0' in b
    ensures b[..StrLen(b)] == UpTo(Limit(content), '\0')
  {
    assert b == Limit(content) + ['\0'] + b[n + 1..];
    UpToStop(Limit(content), '\0', b[n + 1..]);
  }

  /**
   * The step `q = strchr(buffer, c); if (q) *q = '\0';`: the C string held by buffer is
   * cut before its first c.
   */
  method TerminateAt(buffer: array<char>, c: char)
    requires '\0' in buffer[..] && c != '\0'
    modifies buffer
    ensures '\0' in buffer[..]
    ensures buffer[..StrLen(buffer[..])] == UpTo(old(buffer[..StrLen(buffer[..])]), c)
  {
    var found := StrChr(buffer[..], c);
    TerminateAtChr(buffer[..], c);
    if found.Some? {
      buffer[found.value] := '\0';
    }
  }

  /** The C string held by buffer ends at index len. */
  ghost predicate Terminated(buffer: array<char>, len: nat)
    reads buffer
  {
    len < buffer.Length && buffer[len] == '\0' && forall j :: 0 <= j < len ==> buffer[j] != '\0'
  }

  /** The loop `while (*p == ' ' || *p == '\t') p++;`: p moves past the blanks at p. */
  method SkipBlanks(buffer: array<char>, p: nat, ghost len: nat, ghost text: seq<char>) returns (q: nat)
    requires Terminated(buffer, len) && text == buffer[..len] && p <= len
    ensures p <= q <= len
    ensures !IsBlank(buffer[q])
    ensures forall j :: p <= j < q ==> IsBlank(buffer[j])
    ensures Fields(text[q..]) == Fields(text[p..])
  {
    q := p;
    while buffer[q] == ' ' || buffer[q] == '\t'
      invariant p <= q <= len
      invariant forall j :: p <= j < q ==> IsBlank(buffer[j])
      invariant Fields(text[q..]) == Fields(text[p..])
      decreases len - q
    {
      FieldsSkipBlank(text, q);
      q := q + 1;
    }
  }

  /**
   * The loop `while (*p && *p != ' ' && *p != '\t') p++;`, started on a non-blank
   * character: p moves to the end of the token, which is the next field.
   */
  method SkipToken(buffer: array<char>, p: nat, ghost len: nat, ghost text: seq<char>) returns (q: nat)
    requires Terminated(buffer, len) && text == buffer[..len] && p < len && !IsBlank(buffer[p])
    ensures p < q <= len
    ensures q < len ==> IsBlank(buffer[q])
    ensures forall j :: p <= j < q ==> !IsBlank(buffer[j])
    ensures Fields(text[p..]) == [buffer[p..q]] + Fields(text[q..])
  {
    q := p + 1;
    while buffer[q] != '\0' && buffer[q] != ' ' && buffer[q] != '\t'
      invariant p < q <= len
      invariant forall j :: p <= j < q ==> !IsBlank(buffer[j])
      decreases len - q
    {
      q := q + 1;
    }
    FieldsTakeToken(text, p, q);
    assert text[p..q] == buffer[p..q];
  }

  /**
   * The counting pass: 1 (for the program name) plus the number of maximal runs of
   * non-space, non-tab characters in the C string held by buffer.
   */
  method CountArguments(buffer: array<char>, ghost len: nat) returns (argCount: int)
    requires Terminated(buffer, len)
    ensures argCount == 1 + |Fields(buffer[..len])|
  {
    ghost var text := buffer[..len];
    argCount := 1;
    var p := 0;
    while buffer[p] != '\0'
      invariant 0 <= p <= len
      invariant argCount + |Fields(text[p..])| == 1 + |Fields(text)|
      decreases len - p
    {
      var tokenStart;
      tokenStart, p := NextToken(buffer, p, len, text);
      if tokenStart == p {
        break;
      }
      argCount := argCount + 1;
    }
  }

  /**
   * One round of either pass: skip the blanks at p; at the terminator there is no
   * further field, otherwise the token that starts there is the next field.
   */
  method NextToken(buffer: array<char>, p: nat, ghost len: nat, ghost text: seq<char>)
    returns (start: nat, q: nat)
    requires Terminated(buffer, len) && text == buffer[..len] && p <= len
    ensures p <= start <= q <= len
    ensures start == q ==> q == len
    ensures start == q ==> Fields(text[p..]) == []
    ensures start < q ==> Fields(text[p..]) == [buffer[start..q]] + Fields(text[q..])
  {
    start := SkipBlanks(buffer, p, len, text);
    if buffer[start] == '\0' {
      assert text[start..] == [];
      return start, start;
    }
    q := SkipToken(buffer, start, len, text);
  }

  /**
   * The filling pass: slots 1 .. argCount - 1 of argv receive, in order, copies of the
   * fields of the C string held by buffer, and slot argCount the terminating NULL.
   */
  method FillArguments(buffer: array<char>, ghost len: nat, newArgv: array<Option<seq<char>>>, argCount: int)
    requires Terminated(buffer, len)
    requires argCount == 1 + |Fields(buffer[..len])|
    requires newArgv.Length == argCount + 1
    modifies newArgv
    ensures newArgv[0] == old(newArgv[0])
    ensures newArgv[argCount] == None
    ensures forall i :: 1 <= i < argCount ==> newArgv[i] == Some(Fields(buffer[..len])[i - 1] + ['\0'])
  {
    ghost var text := buffer[..len];
    ghost var taken: seq<seq<char>> := [];
    var p := 0;
    var i := 1;
    while buffer[p] != '\0' && i < argCount
      invariant 0 <= p <= len
      invariant i == |taken| + 1 <= argCount
      invariant Fields(text) == taken + Fields(text[p..])
      invariant newArgv[0] == old(newArgv[0])
      invariant forall j :: 1 <= j < i ==> newArgv[j] == Some(taken[j - 1] + ['\0'])
      decreases len - p
    {
      var tokenStart;
      tokenStart, p := NextToken(buffer, p, len, text);
      if tokenStart == p {
        break;
      }
      var token := buffer[tokenStart..p];
      assert Fields(text) == (taken + [token]) + Fields(text[p..]);
      newArgv[i] := Some(token + ['\0']);
      taken := taken + [token];
      i := i + 1;
    }
    assert text[len..] == [];
    assert taken == Fields(text);
    newArgv[argCount] := None;
  }
}
