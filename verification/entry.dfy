/** The editing state of a `ClutterEntry`: its text (possibly NULL), the
    cursor position, the font name and whether the cursor is shown, and the
    calls that edit them.  The getters of the entry return these fields as
    they are.  The cursor position counts characters; -1 stands for "after
    the last character". */
module TextEntry {
  import opened Optional
  import opened CInt
  import GStr

  /** The font an entry starts with and falls back to. */
  const DefaultFontName: string := "Sans 10"

  datatype Entry = Entry(text: Option<string>, position: int, fontName: string, showCursor: bool)

  /** `clutter_entry_init`: no text, the cursor after the end, the default
      font and a visible cursor. */
  const Initial: Entry := Entry(None, -1, DefaultFontName, true)

  /** The text, with NULL read as the empty string (as `g_string_new` does). */
  function Chars(e: Entry): string
  {
    e.text.GetOr([])
  }

  /** The cursor is after the end, or before one of the characters. */
  predicate CursorInText(e: Entry)
  {
    e.position == -1 || (e.text.Some? && 0 <= e.position < |e.text.value|)
  }

  /** What every state reached through the editing calls below keeps: the
      cursor is in the text, the text has no NUL character, and the font
      name is a non-empty C string. */
  predicate WellFormed(e: Entry)
  {
    && CursorInText(e)
    && GStr.NulFree(Chars(e))
    && GStr.NulFree(e.fontName) && e.fontName != []
  }

  /** `clutter_entry_set_text`: the entry keeps a C-string copy of `text`
      (NULL stays NULL); the cursor is not touched. */
  function SetText(e: Entry, text: Option<string>): (r: Entry)
    ensures r.text.Some? <==> text.Some?
    ensures text.Some? && GStr.NulFree(text.value) ==> r.text == text
    ensures GStr.NulFree(Chars(r))
    ensures r.(text := e.text) == e
  {
    match text
    case None => e.(text := None)
    case Some(t) => GStr.CStringOfNulFree(t); e.(text := Some(GStr.CString(t)))
  }

  /** `clutter_entry_set_position`: with no text nothing happens; a
      position that is negative or not before a character becomes -1. */
  function SetPosition(e: Entry, position: int): (r: Entry)
    ensures e.text.None? ==> r == e
    ensures e.text.Some? ==>
      && CursorInText(r)
      && (r.position == position || r.position == -1)
      && (r.position == position <==> position == -1 || 0 <= position < |e.text.value|)
    ensures r.(position := e.position) == e
  {
    match e.text
    case None => e
    case Some(t) =>
      if position < 0 || position >= |t| then e.(position := -1) else e.(position := position)
  }

  /** `g_unichar_validate`: below 0x110000 and not a surrogate. */
  predicate ValidUnichar(wc: uint32)
  {
    wc < 0x11_0000 && !(0xD800 <= wc < 0xE000)
  }

  /** `clutter_entry_add`: an invalid character changes nothing; otherwise
      the character is inserted at the cursor (appended when the cursor is
      -1), and a cursor after the first position moves past it. */
  function Add(e: Entry, wc: uint32): (r: Entry)
    ensures !ValidUnichar(wc) ==> r == e
    ensures r.fontName == e.fontName && r.showCursor == e.showCursor
    ensures ValidUnichar(wc) ==> r.text.Some?
    ensures e.position <= 0 ==> r.position == e.position
  {
    if !ValidUnichar(wc) then e
    else
      var e1 := SetText(e, Some(GStr.InsertChar(Chars(e), e.position, wc as char)));
      if e.position > 0 then SetPosition(e1, e.position + 1) else e1
  }

  /** `clutter_entry_remove`: `num` characters before the cursor (before
      the end when the cursor is -1) go.  `num` is a `guint`, so the start
      of the range is computed in unsigned 32-bit arithmetic and handed to
      `g_string_erase` as a 64-bit `gssize`, and the new cursor is the same
      difference read back as a `gint`. */
  function Remove(e: Entry, num: uint32): (r: Entry)
    ensures e.text.None? ==> r == e
    ensures r.text.Some? <==> e.text.Some?
    ensures r.fontName == e.fontName && r.showCursor == e.showCursor
    ensures e.position <= 0 ==> r.position == e.position
  {
    match e.text
    case None => e
    case Some(t) =>
      var at := if e.position == -1 then Wrap32(|t| - num) else Wrap32(e.position - num);
      var e1 := SetText(e, Some(GStr.Erase(t, at, num)));
      if e.position > 0 then SetPosition(e1, ToInt32(Wrap32(e.position - num))) else e1
  }

  /** `clutter_entry_insert_text`: `text` goes in at `position` (at the end
      when it is negative); the cursor is not touched. */
  function InsertText(e: Entry, text: Option<string>, position: int): (r: Entry)
    ensures r.text.Some?
    ensures r.(text := e.text) == e
  {
    SetText(e, Some(GStr.Insert(Chars(e), position, text)))
  }

  /** `clutter_entry_delete_text`: the characters from `start` up to `end`
      go (to the end of the text when `end - start` is negative); the
      cursor is not touched. */
  function DeleteText(e: Entry, start: int, end: int): (r: Entry)
    ensures e.text.None? ==> r == e
    ensures r.text.Some? <==> e.text.Some?
    ensures r.(text := e.text) == e
  {
    match e.text
    case None => e
    case Some(t) => SetText(e, Some(GStr.Erase(t, start, end - start)))
  }

  /** The font a `clutter_entry_set_font_name` call asks for: the given C
      string, or the default one for NULL or "". */
  function RequestedFont(name: Option<string>): (r: string)
    ensures GStr.NulFree(r) && r != []
    ensures name.Some? && name.value != [] && GStr.NulFree(name.value) ==> r == name.value
  {
    GStr.CStringOfNulFree(name.GetOr([]));
    var given := if name.None? then [] else GStr.CString(name.value);
    if given == [] then DefaultFontName else given
  }

  /** `clutter_entry_set_font_name`.  `parses` stands for
      `pango_font_description_from_string` succeeding on a name; a name it
      rejects leaves the entry as it was. */
  function SetFontName(e: Entry, name: Option<string>, parses: string -> bool): (r: Entry)
    ensures r.(fontName := e.fontName) == e
    ensures r.fontName == e.fontName || r.fontName == RequestedFont(name)
    ensures parses(RequestedFont(name)) ==> r.fontName == RequestedFont(name)
    ensures !parses(RequestedFont(name)) ==> r == e
  {
    var wanted := RequestedFont(name);
    if e.fontName == wanted then e
    else if !parses(wanted) then e
    else e.(fontName := wanted)
  }

  /** `clutter_entry_set_visible_cursor`. */
  function SetVisibleCursor(e: Entry, visible: bool): (r: Entry)
    ensures r.showCursor == visible
    ensures r.(showCursor := e.showCursor) == e
  {
    e.(showCursor := visible)
  }

  /** The character index `clutter_entry_ensure_cursor_position` places the
      drawn cursor at. */
  function CursorIndex(e: Entry): (r: int)
    ensures CursorInText(e) ==> 0 <= r <= |Chars(e)| && (r == |Chars(e)| <==> e.position == -1)
  {
    if e.position == -1 then |Chars(e)| else e.position
  }

  /** A fresh entry is well formed: no text, cursor after the end, the
      default font, cursor shown. */
  lemma InitialState()
    ensures WellFormed(Initial)
    ensures Initial.text.None? && Initial.position == -1 && Initial.showCursor
    ensures Initial.fontName == DefaultFontName == RequestedFont(None)
  {
  }

  /** Setting a position twice is setting it once. */
  lemma SetPositionIdempotent(e: Entry, position: int)
    ensures SetPosition(SetPosition(e, position), position) == SetPosition(e, position)
  {
  }

  /** `set_text` copies a C string: a NUL in the new text cuts it short. */
  lemma SetTextStopsAtNul(e: Entry, before: string, after: string)
    requires GStr.NulFree(before)
    ensures SetText(e, Some(before + ['\0'] + after)).text == Some(before)
  {
    GStr.CStringStops(before, after);
  }

  /** `set_text` leaves the cursor where it was, even when it now lies past
      the end of the new text. */
  lemma SetTextLeavesStaleCursor()
    ensures var e := Entry(Some("ab"), 1, DefaultFontName, true);
      WellFormed(e) && !WellFormed(SetText(e, Some("")))
  {
    var e := Entry(Some("ab"), 1, DefaultFontName, true);
    assert GStr.NulFree(Chars(e)) by {
      assert Chars(e) == "ab";
    }
  }

  /** Adding a character other than NUL inserts it at the cursor: appended
      for -1, in front for 0, and before the cursor's character otherwise,
      the cursor then moving past it except at 0. */
  lemma AddInsertsAtCursor(e: Entry, wc: uint32)
    requires WellFormed(e) && ValidUnichar(wc) && wc != 0
    ensures var r := Add(e, wc); var s := Chars(e); var p := e.position; var c := wc as char;
      && WellFormed(r)
      && (p == -1 ==> r.text == Some(s + [c]) && r.position == -1)
      && (p == 0 ==> r.text == Some([c] + s) && r.position == 0)
      && (p > 0 ==> r.text == Some(s[..p] + [c] + s[p..]) && r.position == p + 1)
  {
    var s := Chars(e);
    var p := e.position;
    var c := wc as char;
    var i := GStr.InsertChar(s, p, c);
    GStr.InsertCharKeepsNulFree(s, p, c);
    GStr.CStringOfNulFree(i);
    if p == -1 {
      assert i == s + [c];
    } else {
      assert i == s[..p] + [c] + s[p..];
      if p == 0 {
        assert s[..0] + [c] + s[0..] == [c] + s;
      }
    }
  }

  /** Characters added while the cursor is at 0 go in front of each other:
      typing "a" then "b" reads "ba". */
  lemma TypingAtStartReverses(e: Entry, a: uint32, b: uint32)
    requires WellFormed(e) && e.position == 0
    requires ValidUnichar(a) && a != 0 && ValidUnichar(b) && b != 0
    ensures Add(Add(e, a), b).text == Some([b as char, a as char] + Chars(e))
    ensures Add(Add(e, a), b).position == 0
  {
    AddInsertsAtCursor(e, a);
    var e1 := Add(e, a);
    AddInsertsAtCursor(e1, b);
    assert [b as char] + ([a as char] + Chars(e)) == [b as char, a as char] + Chars(e);
  }

  /** Adding NUL truncates the text at the cursor; at position 0 this
      empties the text while the cursor stays at 0, past its end. */
  lemma AddNulTruncates(e: Entry)
    requires WellFormed(e) && e.position >= 0
    ensures Add(e, 0).text == Some(Chars(e)[..e.position])
    ensures e.position == 0 ==> Add(e, 0).position == 0 && !WellFormed(Add(e, 0))
  {
    var s := Chars(e);
    var p := e.position;
    assert s[..p] == s[..p] && GStr.NulFree(s[..p]) by {
      forall i | 0 <= i < |s[..p]| ensures s[..p][i] != '\0' {
        assert s[..p][i] == s[i];
      }
    }
    assert GStr.InsertChar(s, p, 0 as char) == s[..p] + ['\0'] + s[p..];
    GStr.CStringStops(s[..p], s[p..]);
  }

  /** Removing at most as many characters as precede the cursor takes away
      exactly those characters, and the cursor follows them back. */
  lemma RemoveBeforeCursor(e: Entry, num: uint32)
    requires WellFormed(e) && e.text.Some? && |Chars(e)| < Two31
    ensures var r := Remove(e, num); var s := Chars(e); var p := e.position;
      && WellFormed(r)
      && (p == -1 && num <= |s| ==> r.text == Some(s[..|s| - num]) && r.position == -1)
      && (p > 0 && num <= p ==> r.text == Some(s[..p - num] + s[p..]) && r.position == p - num)
  {
    var s := Chars(e);
    var p := e.position;
    var r := Remove(e, num);
    if p == -1 {
      if num <= |s| {
        GStr.EditsKeepNulFree(s, 0, None, |s| - num, num);
        GStr.CStringOfNulFree(GStr.Erase(s, |s| - num, num));
        assert GStr.Erase(s, |s| - num, num) == s[..|s| - num];
      } else {
        RemoveNothingBefore(e, num);
      }
    } else if p > 0 {
      if num <= p {
        GStr.EditsKeepNulFree(s, 0, None, p - num, num);
        GStr.CStringOfNulFree(GStr.Erase(s, p - num, num));
        assert GStr.Erase(s, p - num, num) == s[..p - num] + s[p..];
        SignedRoundTrip(p - num);
      } else {
        RemoveTooMany(e, num);
      }
    } else {
      RemoveNothingBefore(e, num);
    }
  }

  /** Removing with the cursor at 0, or more characters than the text
      holds with the cursor at the end, removes nothing: the unsigned start
      of the range lands past the text, or the range runs past its end
      (or is empty, when nothing is asked for). */
  lemma RemoveNothingBefore(e: Entry, num: uint32)
    requires WellFormed(e) && e.text.Some? && |Chars(e)| < Two31
    requires e.position == 0 || (e.position == -1 && num > |Chars(e)|)
    ensures Remove(e, num) == e
  {
    var s := Chars(e);
    var d := if e.position == -1 then |s| - num else 0 - num;
    var at := Wrap32(d);
    if d < 0 {
      WrapNegative(d);
      assert GStr.Erase(s, at, num) == s;
    } else {
      assert GStr.Erase(s, 0, 0) == s;
    }
    GStr.CStringOfNulFree(s);
    assert SetText(e, Some(s)) == e;
  }

  /** Asking to remove more characters than precede a cursor after the
      first position removes none.  The cursor, read back as a `gint`,
      becomes negative and so jumps to the end, unless `num` exceeds the
      cursor by more than 2^31, when the difference wraps round to a
      positive position. */
  lemma RemoveTooMany(e: Entry, num: uint32)
    requires WellFormed(e) && e.text.Some? && |Chars(e)| < Two31
    requires 0 < e.position < num
    ensures Remove(e, num).text == e.text
    ensures num <= e.position + Two31 ==> Remove(e, num).position == -1
    ensures num > e.position + Two31 ==> Remove(e, num).position == SetPosition(e, e.position - num + Two32).position
  {
    var s := Chars(e);
    var p := e.position;
    var at := Wrap32(p - num);
    WrapNegative(p - num);
    assert GStr.Erase(s, at, num) == s;
    GStr.CStringOfNulFree(s);
    assert SetText(e, Some(s)) == e;
    assert ToInt32(at) == if num <= p + Two31 then p - num else p - num + Two32;
  }

  /** Removing one character right after adding one gives the text back,
      except with the cursor at 0, where the added character stays. */
  lemma RemoveAfterAdd(e: Entry, wc: uint32)
    requires WellFormed(e) && ValidUnichar(wc) && wc != 0 && |Chars(e)| + 1 < Two31
    ensures e.position != 0 ==> Remove(Add(e, wc), 1) == e.(text := Some(Chars(e)))
    ensures e.position == 0 ==> Remove(Add(e, wc), 1) == Add(e, wc)
  {
    var s := Chars(e);
    var p := e.position;
    var c := wc as char;
    AddInsertsAtCursor(e, wc);
    var a := Add(e, wc);
    RemoveBeforeCursor(a, 1);
    if p == -1 {
      assert (s + [c])[..|s|] == s;
    } else if p > 0 {
      var t := s[..p] + [c] + s[p..];
      assert t[..p] + t[p + 1..] == s[..p] + s[p..];
      assert s[..p] + s[p..] == s;
    } else {
      RemoveNothingBefore(a, 1);
    }
  }

  /** Inserting text puts it at the position (at the end for a negative
      one, nowhere for one past the end), turns a NULL text into a string,
      and leaves the cursor where it was. */
  lemma InsertTextSplices(e: Entry, t: string, position: int)
    requires WellFormed(e) && GStr.NulFree(t)
    ensures var r := InsertText(e, Some(t), position); var s := Chars(e);
      && WellFormed(r)
      && r.position == e.position
      && (position < 0 ==> r.text == Some(s + t))
      && (0 <= position <= |s| ==> r.text == Some(s[..position] + t + s[position..]))
      && (position > |s| ==> r.text == Some(s))
  {
    var s := Chars(e);
    GStr.CStringOfNulFree(t);
    GStr.EditsKeepNulFree(s, position, Some(t), 0, 0);
    var i := GStr.Insert(s, position, Some(t));
    GStr.CStringOfNulFree(i);
    if 0 <= position <= |s| {
      assert i == s[..position] + t + s[position..];
    }
  }

  /** Deleting from `start` up to `end` takes those characters out; a
      negative `end - start` deletes to the end of the text; a range outside
      the text deletes nothing.  The cursor is not moved. */
  lemma DeleteTextRemoves(e: Entry, start: int, end: int)
    requires WellFormed(e) && e.text.Some?
    ensures var r := DeleteText(e, start, end); var s := Chars(e);
      && GStr.NulFree(Chars(r))
      && r.position == e.position
      && (0 <= start <= end <= |s| ==> r.text == Some(s[..start] + s[end..]))
      && (0 <= start <= |s| && end < start ==> r.text == Some(s[..start]))
      && (start < 0 || start > |s| || (start <= end && end > |s|) ==> r == e)
  {
    var s := Chars(e);
    GStr.EditsKeepNulFree(s, 0, None, start, end - start);
    var d := GStr.Erase(s, start, end - start);
    GStr.CStringOfNulFree(d);
    GStr.CStringOfNulFree(s);
    if 0 <= start <= end <= |s| {
      assert d == s[..start] + s[end..];
    }
  }

  /** Deleting text that was just inserted gives the text back (a NULL
      text comes back as the empty string). */
  lemma DeleteAfterInsert(e: Entry, t: string, position: int)
    requires WellFormed(e) && GStr.NulFree(t) && 0 <= position <= |Chars(e)|
    ensures DeleteText(InsertText(e, Some(t), position), position, position + |t|) == e.(text := Some(Chars(e)))
  {
    var s := Chars(e);
    GStr.CStringOfNulFree(t);
    GStr.EditsKeepNulFree(s, position, Some(t), 0, 0);
    GStr.CStringOfNulFree(GStr.Insert(s, position, Some(t)));
    GStr.EraseAfterInsert(s, position, t);
    GStr.CStringOfNulFree(s);
  }

  /** Deleting the tail that was just appended gives the text back. */
  lemma DeleteAfterAppend(e: Entry, t: string)
    requires WellFormed(e) && GStr.NulFree(t)
    ensures var n := |Chars(e)|;
      DeleteText(InsertText(e, Some(t), -1), n, n + |t|) == e.(text := Some(Chars(e)))
  {
    var s := Chars(e);
    GStr.CStringOfNulFree(t);
    GStr.EditsKeepNulFree(s, -1, Some(t), 0, 0);
    GStr.CStringOfNulFree(GStr.Insert(s, -1, Some(t)));
    GStr.EraseAfterAppend(s, t);
    GStr.CStringOfNulFree(s);
  }

  /** `delete_text`, like `set_text`, can leave the cursor past the end. */
  lemma DeleteTextLeavesStaleCursor()
    ensures var e := Entry(Some("ab"), 1, DefaultFontName, true);
      WellFormed(e) && !WellFormed(DeleteText(e, 0, -1))
  {
    var e := Entry(Some("ab"), 1, DefaultFontName, true);
    assert GStr.NulFree(Chars(e)) by {
      assert Chars(e) == "ab";
    }
    assert GStr.Erase("ab", 0, -1) == [];
  }

  /** Asking for the same font twice is asking once; NULL and "" both ask
      for the default font. */
  lemma SetFontNameIdempotent(e: Entry, name: Option<string>, parses: string -> bool)
    ensures SetFontName(SetFontName(e, name, parses), name, parses) == SetFontName(e, name, parses)
    ensures RequestedFont(None) == RequestedFont(Some([])) == DefaultFontName
  {
  }

  /** The drawn cursor sits within the text, at its end exactly when the
      position is -1. */
  lemma CursorIndexInText(e: Entry)
    requires WellFormed(e)
    ensures 0 <= CursorIndex(e) <= |Chars(e)|
    ensures CursorIndex(e) == |Chars(e)| <==> e.position == -1
  {
  }

  /** Every editing call but `set_text`, `delete_text` and `add` keeps an
      entry well formed (removing for texts shorter than 2^31 characters). */
  lemma EditsKeepWellFormed(e: Entry, position: int, num: uint32, t: Option<string>,
                            name: Option<string>, parses: string -> bool, visible: bool)
    requires WellFormed(e)
    ensures WellFormed(SetPosition(e, position))
    ensures e.text.Some? && |Chars(e)| < Two31 ==> WellFormed(Remove(e, num))
    ensures WellFormed(InsertText(e, t, position))
    ensures WellFormed(SetFontName(e, name, parses))
    ensures WellFormed(SetVisibleCursor(e, visible))
  {
    if e.text.Some? && |Chars(e)| < Two31 {
      RemoveBeforeCursor(e, num);
    }
    var s := Chars(e);
    GStr.EditsKeepNulFree(s, position, t, 0, 0);
    GStr.CStringOfNulFree(GStr.Insert(s, position, t));
  }

  /** Adding a valid character keeps an entry well formed, except adding
      NUL at position 0. */
  lemma AddKeepsWellFormed(e: Entry, wc: uint32)
    requires WellFormed(e) && ValidUnichar(wc) && (wc != 0 || e.position != 0)
    ensures WellFormed(Add(e, wc))
  {
    if wc != 0 {
      AddInsertsAtCursor(e, wc);
    } else {
      AddNul(e);
    }
  }

  /** Adding NUL away from position 0 keeps the entry well formed. */
  lemma AddNul(e: Entry)
    requires WellFormed(e) && e.position != 0
    ensures WellFormed(Add(e, 0))
  {
    var s := Chars(e);
    var p := e.position;
    if p == -1 {
      GStr.CStringStops(s, []);
      assert GStr.InsertChar(s, p, 0 as char) == s + ['\0'] + [];
    } else {
      AddNulTruncates(e);
    }
  }
}
