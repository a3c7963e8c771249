/**
 * Specification of the argument-file tokenizer of mergecap: which part of the file's
 * text is looked at, and which whitespace-separated fields it holds.
 * The imperative tokenizer in module ArgFile is proved against these functions.
 */
module ArgText {
  import opened Wrappers

  /** Size of the on-stack buffer the file is read into. */
  const BUFFER_SIZE: nat := 1024

  /** fread is asked for one byte less than the buffer, leaving room for the NUL. */
  const READ_LIMIT: nat := BUFFER_SIZE - 1

  /** The two token delimiters. */
  predicate IsBlank(c: char) {
    c == ' ' || c == '\t'
  }

  /** The characters at which the text read from the file is cut. */
  predicate IsStop(c: char) {
    c == '\0' || c == '\n' || c == '\r'
  }

  // ---------------------------------------------------------------------------
  // Searching and cutting
  // ---------------------------------------------------------------------------

  /** Index of the first c in s, or |s| when s holds no c. */
  function Find(s: seq<char>, c: char): (k: nat)
    ensures k <= |s|
    ensures forall j :: 0 <= j < k ==> s[j] != c
    ensures k < |s| ==> s[k] == c
  {
    if s == [] then 0
    else if s[0] == c then 0
    else 1 + Find(s[1..], c)
  }

  /** The conditions of Find's contract determine its result. */
  lemma FindUnique(s: seq<char>, c: char, k: nat)
    requires k <= |s|
    requires forall j :: 0 <= j < k ==> s[j] != c
    requires k < |s| ==> s[k] == c
    ensures Find(s, c) == k
  {
  }

  /** The part of s before its first c (all of s when there is none). */
  function UpTo(s: seq<char>, c: char): (r: seq<char>)
    ensures |r| <= |s| && r == s[..|r|]
    ensures c !in r
    ensures |r| < |s| ==> s[|r|] == c
  {
    s[..Find(s, c)]
  }

  /** Cutting at a c that is already followed, at the end of a, by a c changes nothing. */
  lemma UpToStop(a: seq<char>, c: char, b: seq<char>)
    ensures UpTo(a + [c] + b, c) == UpTo(a, c)
  {
    var s := a + [c] + b;
    FindUnique(s, c, Find(a, c));
  }

  /** When a marker appears inside a, what follows a does not matter. */
  lemma UpToAppendFound(a: seq<char>, c: char, b: seq<char>)
    requires c in a
    ensures UpTo(a + b, c) == UpTo(a, c)
  {
    var k := Find(a, c);
    FindUnique(a + b, c, k);
  }

  /** When a holds no marker, cutting a + b keeps a and cuts b. */
  lemma UpToAppendMissing(a: seq<char>, c: char, b: seq<char>)
    requires c !in a
    ensures UpTo(a + b, c) == a + UpTo(b, c)
  {
    var k := Find(b, c);
    forall j | 0 <= j < |a| + k ensures (a + b)[j] != c {
      if j >= |a| {
        assert (a + b)[j] == b[j - |a|];
      }
    }
    FindUnique(a + b, c, |a| + k);
    assert (a + b)[..|a| + k] == a + b[..k];
  }

  /** The bytes fread delivers: at most READ_LIMIT of them. */
  function Limit(content: seq<char>): (r: seq<char>)
    ensures |r| <= READ_LIMIT && |r| <= |content| && r == content[..|r|]
    ensures |content| <= READ_LIMIT ==> r == content
  {
    if |content| <= READ_LIMIT then content else content[..READ_LIMIT]
  }

  /**
   * The text the tokenizer splits: the bytes read, as a C string (ending at the first
   * NUL), cut at its first newline and then at the first carriage return that remains.
   */
  function Cut(content: seq<char>): seq<char>
  {
    UpTo(UpTo(UpTo(Limit(content), '\0'), '\n'), '\r')
  }

  /** The cut text is a prefix of the file, of at most READ_LIMIT bytes, with no stop character. */
  lemma CutShape(content: seq<char>)
    ensures var t := Cut(content);
            |t| <= READ_LIMIT && t == content[..|t|] &&
            forall j :: 0 <= j < |t| ==> !IsStop(t[j])
  {
    var s0 := UpTo(Limit(content), '\0');
    var s1 := UpTo(s0, '\n');
    var t := UpTo(s1, '\r');
    assert t == s1[..|t|] && s1 == s0[..|s1|] && s0 == Limit(content)[..|s0|];
    forall j | 0 <= j < |t| ensures !IsStop(t[j]) {
      assert t[j] == s1[j] == s0[j];
    }
  }

  /** Cutting a + [c] + r at m: either the cut falls within a + [c], or a + [c] survives. */
  lemma UpToAround(a: seq<char>, c: char, r: seq<char>, m: char)
    ensures UpTo(a + [c] + r, m) ==
            if m in a || m == c then UpTo(a, m) else a + [c] + UpTo(r, m)
  {
    if m in a {
      UpToAppendFound(a, m, [c] + r);
      assert a + [c] + r == a + ([c] + r);
    } else if m == c {
      UpToStop(a, c, r);
    } else {
      UpToAppendMissing(a + [c], m, r);
    }
  }

  /**
   * A NUL, newline or carriage return within the first READ_LIMIT bytes hides everything
   * after it: the cut text of a + [c] + b is that of a, whatever b is.
   */
  lemma {:induction false} CutIgnoresAfterStop(a: seq<char>, c: char, b: seq<char>)
    requires IsStop(c)
    requires |a| < READ_LIMIT
    ensures Cut(a + [c] + b) == Cut(a)
  {
    var r0 := Limit(a + [c] + b)[|a| + 1..];
    assert Limit(a + [c] + b) == a + [c] + r0;
    assert Limit(a) == a;
    UpToAround(a, c, r0, '\0');
    if !('\0' in a || c == '\0') {
      FindUnique(a, '\0', |a|);
      var r1 := UpTo(r0, '\0');
      UpToAround(a, c, r1, '\n');
      if !('\n' in a || c == '\n') {
        FindUnique(a, '\n', |a|);
        UpToAround(a, c, UpTo(r1, '\n'), '\r');
      }
    }
  }

  /** Only the first READ_LIMIT bytes of the file are ever looked at. */
  lemma CutIgnoresBeyondLimit(a: seq<char>, b: seq<char>)
    requires |a| >= READ_LIMIT
    ensures Cut(a + b) == Cut(a)
  {
    assert (a + b)[..READ_LIMIT] == a[..READ_LIMIT];
  }

  // ---------------------------------------------------------------------------
  // Fields
  // ---------------------------------------------------------------------------

  /** Length of the leading run of non-blank characters of s. */
  function TokenLen(s: seq<char>): (n: nat)
    ensures n <= |s|
    ensures forall j :: 0 <= j < n ==> !IsBlank(s[j])
    ensures n < |s| ==> IsBlank(s[n])
  {
    if s == [] || IsBlank(s[0]) then 0 else 1 + TokenLen(s[1..])
  }

  /** The conditions of TokenLen's contract determine its result. */
  lemma TokenLenUnique(s: seq<char>, n: nat)
    requires n <= |s|
    requires forall j :: 0 <= j < n ==> !IsBlank(s[j])
    requires n < |s| ==> IsBlank(s[n])
    ensures TokenLen(s) == n
  {
  }

  /** The whitespace-separated fields of s, left to right. */
  function Fields(s: seq<char>): seq<seq<char>>
    decreases |s|
  {
    if s == [] then []
    else if IsBlank(s[0]) then Fields(s[1..])
    else
      var n := TokenLen(s);
      [s[..n]] + Fields(s[n..])
  }

  /** A blank at p contributes no field. */
  lemma FieldsSkipBlank(s: seq<char>, p: nat)
    requires p < |s| && IsBlank(s[p])
    ensures Fields(s[p..]) == Fields(s[p + 1..])
  {
    assert s[p..][1..] == s[p + 1..];
  }

  /** A maximal run of non-blanks starting at p is the next field. */
  lemma FieldsTakeToken(s: seq<char>, p: nat, q: nat)
    requires p < q <= |s|
    requires forall j :: p <= j < q ==> !IsBlank(s[j])
    requires q < |s| ==> IsBlank(s[q])
    ensures Fields(s[p..]) == [s[p..q]] + Fields(s[q..])
  {
    TokenLenUnique(s[p..], q - p);
    assert s[p..][q - p..] == s[q..];
    assert s[p..][..q - p] == s[p..q];
  }

  /** A field: a non-empty string with no blanks in it. */
  predicate IsField(t: seq<char>) {
    t != [] && forall j :: 0 <= j < |t| ==> !IsBlank(t[j])
  }

  /** Every field is non-empty and holds no space or tab. */
  lemma {:induction false} FieldsAreFields(s: seq<char>)
    ensures forall k :: 0 <= k < |Fields(s)| ==> IsField(Fields(s)[k])
    decreases |s|
  {
    if s == [] {
    } else if IsBlank(s[0]) {
      FieldsAreFields(s[1..]);
    } else {
      var n := TokenLen(s);
      FieldsAreFields(s[n..]);
      assert Fields(s) == [s[..n]] + Fields(s[n..]);
    }
  }

  /** Every character of a field comes from s. */
  lemma {:induction false} FieldsCharsFromText(s: seq<char>, c: char)
    requires c !in s
    ensures forall k :: 0 <= k < |Fields(s)| ==> c !in Fields(s)[k]
    decreases |s|
  {
    if s == [] {
    } else if IsBlank(s[0]) {
      FieldsCharsFromText(s[1..], c);
    } else {
      var n := TokenLen(s);
      assert c !in s[n..] && c !in s[..n] by {
        assert forall j :: 0 <= j < |s| - n ==> s[n..][j] == s[n + j];
      }
      FieldsCharsFromText(s[n..], c);
      assert Fields(s) == [s[..n]] + Fields(s[n..]);
    }
  }

  /** s with its blanks removed. */
  function NonBlanks(s: seq<char>): seq<char>
  {
    if s == [] then []
    else (if IsBlank(s[0]) then [] else [s[0]]) + NonBlanks(s[1..])
  }

  /** The concatenation of a sequence of strings. */
  function Concat(ts: seq<seq<char>>): seq<char>
  {
    if ts == [] then [] else ts[0] + Concat(ts[1..])
  }

  lemma {:induction false} NonBlanksAppend(a: seq<char>, b: seq<char>)
    ensures NonBlanks(a + b) == NonBlanks(a) + NonBlanks(b)
    decreases |a|
  {
    if a == [] {
      assert a + b == b;
    } else {
      assert (a + b)[1..] == a[1..] + b;
      NonBlanksAppend(a[1..], b);
    }
  }

  lemma {:induction false} NonBlanksOfBlankFree(t: seq<char>)
    requires forall j :: 0 <= j < |t| ==> !IsBlank(t[j])
    ensures NonBlanks(t) == t
    decreases |t|
  {
    if t != [] {
      NonBlanksOfBlankFree(t[1..]);
    }
  }

  /**
   * The fields hold exactly the non-blank characters of s, in order and byte for byte:
   * concatenated, they give s with its spaces and tabs removed.
   */
  lemma {:induction false} FieldsConcat(s: seq<char>)
    ensures Concat(Fields(s)) == NonBlanks(s)
    decreases |s|
  {
    if s == [] {
    } else if IsBlank(s[0]) {
      FieldsConcat(s[1..]);
    } else {
      var n := TokenLen(s);
      var fs := [s[..n]] + Fields(s[n..]);
      assert fs[1..] == Fields(s[n..]);
      FieldsConcat(s[n..]);
      NonBlanksOfBlankFree(s[..n]);
      NonBlanksAppend(s[..n], s[n..]);
      assert s[..n] + s[n..] == s;
    }
  }

  /**
   * Number of maximal runs of non-blank characters of s: the positions where a
   * non-blank character follows a blank (or the start, when afterBlank holds).
   */
  function RunStarts(s: seq<char>, afterBlank: bool): nat
  {
    if s == [] then 0
    else (if afterBlank && !IsBlank(s[0]) then 1 else 0) + RunStarts(s[1..], IsBlank(s[0]))
  }

  function CountRuns(s: seq<char>): nat {
    RunStarts(s, true)
  }

  /** Inside a run, no new run starts before the run ends. */
  lemma {:induction false} RunStartsInToken(s: seq<char>)
    ensures RunStarts(s, false) == RunStarts(s[TokenLen(s)..], false)
    decreases |s|
  {
    if s != [] && !IsBlank(s[0]) {
      RunStartsInToken(s[1..]);
      assert s[1..][TokenLen(s[1..])..] == s[TokenLen(s)..];
    }
  }

  /** There is one field per maximal run of non-blank characters. */
  lemma {:induction false} FieldsCountRuns(s: seq<char>)
    ensures |Fields(s)| == CountRuns(s)
    decreases |s|
  {
    if s == [] {
    } else if IsBlank(s[0]) {
      FieldsCountRuns(s[1..]);
    } else {
      var n := TokenLen(s);
      RunStartsInToken(s[1..]);
      assert s[1..][TokenLen(s[1..])..] == s[n..];
      var r := s[n..];
      assert r == [] || IsBlank(r[0]);
      assert RunStarts(r, false) == RunStarts(r, true);
      FieldsCountRuns(r);
    }
  }

  /** A field followed by nothing or by a blank is the first field. */
  lemma FieldsOfLeadingField(t: seq<char>, rest: seq<char>)
    requires IsField(t)
    requires rest == [] || IsBlank(rest[0])
    ensures Fields(t + rest) == [t] + Fields(rest)
  {
    var s := t + rest;
    TokenLenUnique(s, |t|);
    assert s[..|t|] == t && s[|t|..] == rest;
  }

  /** The fields separated by single spaces. */
  function Join(ts: seq<seq<char>>): seq<char>
  {
    if ts == [] then []
    else if |ts| == 1 then ts[0]
    else ts[0] + [' '] + Join(ts[1..])
  }

  /** Splitting a space-joined list of fields gives the list back. */
  lemma {:induction false} FieldsJoin(ts: seq<seq<char>>)
    requires forall k :: 0 <= k < |ts| ==> IsField(ts[k])
    ensures Fields(Join(ts)) == ts
    decreases |ts|
  {
    if ts == [] {
    } else if |ts| == 1 {
      FieldsOfLeadingField(ts[0], []);
      assert ts[0] + [] == ts[0];
    } else {
      var rest := Join(ts[1..]);
      FieldsOfLeadingField(ts[0], [' '] + rest);
      assert ts[0] + [' '] + rest == ts[0] + ([' '] + rest);
      assert ([' '] + rest)[1..] == rest;
      FieldsJoin(ts[1..]);
      assert [ts[0]] + ts[1..] == ts;
    }
  }

  // ---------------------------------------------------------------------------
  // C strings
  // ---------------------------------------------------------------------------

  /** strlen: the index of the terminating NUL. */
  function StrLen(b: seq<char>): (n: nat)
    requires '\0' in b
    ensures n < |b| && b[n] == '\0' && '\0' !in b[..n]
  {
    Find(b, '\0')
  }

  /** strchr for a character other than NUL: its first occurrence before the terminator. */
  function StrChr(b: seq<char>, c: char): (r: Option<nat>)
    requires '\0' in b
    requires c != '\0'
    ensures r.Some? ==> r.value < StrLen(b) && b[r.value] == c && c !in b[..r.value]
    ensures r.None? ==> c !in b[..StrLen(b)]
  {
    var k := Find(b[..StrLen(b)], c);
    if k < StrLen(b) then Some(k) else None
  }

  /**
   * Writing a NUL where strchr found c shortens the C string to the part before c: the
   * string is, either way, the old one cut at c.
   */
  lemma TerminateAtChr(b: seq<char>, c: char)
    requires '\0' in b
    requires c != '\0'
    ensures var r := StrChr(b, c);
            r.Some? ==> '\0' in b[r.value := '\0'] &&
                        b[r.value := '\0'][..StrLen(b[r.value := '\0'])] == UpTo(b[..StrLen(b)], c)
    ensures StrChr(b, c).None? ==> b[..StrLen(b)] == UpTo(b[..StrLen(b)], c)
  {
    var s := b[..StrLen(b)];
    var r := StrChr(b, c);
    if r.Some? {
      var k := r.value;
      var b' := b[k := '\0'];
      assert b'[k] == '\0';
      FindUnique(b', '\0', k);
      FindUnique(s, c, k);
      assert b'[..k] == s[..k];
    } else {
      FindUnique(s, c, |s|);
    }
  }
}
