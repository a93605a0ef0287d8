/** The three `GString` calls the entry edits its text with, following the
    guards GLib documents for them, and the C-string copy `g_strdup` makes.
    Text is a sequence of single-byte characters, so byte offsets and
    character indices coincide. */
module GStr {
  import opened Optional

  /** `g_string_insert (s, pos, val)`: a NULL `val` leaves the string as it
      is; otherwise the C string `val` goes in, appended for a negative
      position; a position past the end leaves the string as it is. */
  function Insert(s: string, pos: int, val: Option<string>): (r: string)
    ensures val.None? || pos > |s| ==> r == s
    ensures val.Some? && pos < 0 ==> r == s + CString(val.value)
    ensures val.Some? && 0 <= pos <= |s| ==>
      var t := CString(val.value);
      |r| == |s| + |t| && r[..pos] == s[..pos] && r[pos..pos + |t|] == t && r[pos + |t|..] == s[pos..]
  {
    match val
    case None => s
    case Some(v) =>
      var t := CString(v);
      if pos < 0 then s + t
      else if pos > |s| then s
      else s[..pos] + t + s[pos..]
  }

  /** `g_string_insert_unichar (s, pos, c)`, with the character taking one
      position: appended for a negative position, nothing for a position
      past the end. */
  function InsertChar(s: string, pos: int, c: char): (r: string)
    ensures pos > |s| ==> r == s
    ensures pos < 0 ==> r == s + [c]
    ensures 0 <= pos <= |s| ==> |r| == |s| + 1 && r[pos] == c && r[..pos] == s[..pos] && r[pos + 1..] == s[pos..]
  {
    if pos < 0 then s + [c]
    else if pos > |s| then s
    else s[..pos] + [c] + s[pos..]
  }

  /** `g_string_erase (s, pos, len)`: a position outside the string leaves
      it as it is; a negative length erases to the end; a range running
      past the end leaves the string as it is. */
  function Erase(s: string, pos: int, len: int): (r: string)
    ensures pos < 0 || pos > |s| ==> r == s
    ensures 0 <= pos <= |s| && len < 0 ==> r == s[..pos]
    ensures 0 <= pos && 0 <= len && pos + len > |s| ==> r == s
    ensures 0 <= pos && 0 <= len && pos + len <= |s| ==>
      |r| == |s| - len && r[..pos] == s[..pos] && r[pos..] == s[pos + len..]
  {
    if pos < 0 || pos > |s| then s
    else if len < 0 then s[..pos]
    else if pos + len > |s| then s
    else s[..pos] + s[pos + len..]
  }

  /** Whether a string holds no NUL character. */
  predicate NulFree(s: string)
  {
    forall i :: 0 <= i < |s| ==> s[i] != '\0'
  }

  /** `g_strdup` of a C string: what comes before the first NUL. */
  function CString(s: string): (r: string)
    ensures NulFree(r) && |r| <= |s| && r == s[..|r|]
    ensures |r| < |s| ==> s[|r|] == '\0'
    decreases |s|
  {
    if s == [] then []
    else if s[0] == '\0' then []
    else [s[0]] + CString(s[1..])
  }

  /** Copying a string without NUL characters gives it back. */
  lemma {:induction false} CStringOfNulFree(s: string)
    ensures NulFree(s) ==> CString(s) == s
    decreases |s|
  {
    if s != [] && NulFree(s) {
      CStringOfNulFree(s[1..]);
    }
  }

  /** The copy stops at the first NUL: whatever follows it is lost. */
  lemma {:induction false} CStringStops(s: string, rest: string)
    requires NulFree(s)
    ensures CString(s + ['\0'] + rest) == s
    decreases |s|
  {
    if s != [] {
      assert (s + ['\0'] + rest)[1..] == s[1..] + ['\0'] + rest;
      CStringStops(s[1..], rest);
    }
  }

  /** Erasing what was inserted gives the string back. */
  lemma EraseAfterInsert(s: string, pos: int, t: string)
    requires 0 <= pos <= |s| && NulFree(t)
    ensures Erase(Insert(s, pos, Some(t)), pos, |t|) == s
  {
    CStringOfNulFree(t);
    var i := Insert(s, pos, Some(t));
    assert i[..pos] + i[pos + |t|..] == s[..pos] + s[pos..];
    assert s[..pos] + s[pos..] == s;
  }

  /** Appending, then erasing as many characters from the old end, gives
      the string back. */
  lemma EraseAfterAppend(s: string, t: string)
    requires NulFree(t)
    ensures Erase(Insert(s, -1, Some(t)), |s|, |t|) == s
  {
    CStringOfNulFree(t);
    assert (s + t)[..|s|] == s;
  }

  /** Inserting what was just erased puts it back. */
  lemma InsertAfterErase(s: string, pos: int, len: int)
    requires 0 <= pos && 0 <= len && pos + len <= |s| && NulFree(s)
    ensures Insert(Erase(s, pos, len), pos, Some(s[pos..pos + len])) == s
  {
    var e := Erase(s, pos, len);
    var u := s[pos..pos + len];
    assert NulFree(u) by {
      forall i | 0 <= i < |u| ensures u[i] != '\0' {
        assert u[i] == s[pos + i];
      }
    }
    CStringOfNulFree(u);
    assert e[..pos] + s[pos..pos + len] + e[pos..] == s[..pos] + s[pos..pos + len] + s[pos + len..];
    assert s[..pos] + s[pos..pos + len] + s[pos + len..] == s;
  }

  /** Inserting or erasing never brings a NUL character into a string
      that had none, so a C-string copy of the result loses nothing. */
  lemma EditsKeepNulFree(s: string, pos: int, val: Option<string>, start: int, len: int)
    requires NulFree(s)
    ensures NulFree(Insert(s, pos, val))
    ensures NulFree(Erase(s, start, len))
  {
    var r := Insert(s, pos, val);
    if val.Some? && 0 <= pos <= |s| {
      var t := CString(val.value);
      forall i | 0 <= i < |r| ensures r[i] != '\0' {
        if i < pos { assert r[i] == r[..pos][i] == s[i]; }
        else if i < pos + |t| { assert r[i] == r[pos..pos + |t|][i - pos] == t[i - pos]; }
        else { assert r[i] == r[pos + |t|..][i - pos - |t|] == s[i - |t|]; }
      }
    }
    var d := Erase(s, start, len);
    if 0 <= start && 0 <= len && start + len <= |s| {
      forall i | 0 <= i < |d| ensures d[i] != '\0' {
        if i < start { assert d[i] == d[..start][i] == s[i]; }
        else { assert d[i] == d[start..][i - start] == s[i + len]; }
      }
    }
  }

  /** Inserting a character other than NUL keeps a string free of NULs. */
  lemma InsertCharKeepsNulFree(s: string, pos: int, c: char)
    requires NulFree(s) && c != '\0'
    ensures NulFree(InsertChar(s, pos, c))
  {
    var r := InsertChar(s, pos, c);
    if 0 <= pos <= |s| {
      forall i | 0 <= i < |r| ensures r[i] != '\0' {
        if i < pos { assert r[i] == r[..pos][i] == s[i]; }
        else if i > pos { assert r[i] == r[pos + 1..][i - pos - 1] == s[i - 1]; }
      }
    }
  }
}
