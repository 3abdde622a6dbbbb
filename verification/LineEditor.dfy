/** pksniff, user side: the in-place editor of the 128-byte filter line. */
module LineEditor {
  import opened Prelude

  const BUF: nat := 128
  const NUL: char := '\0'

  /** ncurses key codes. */
  const KEY_LEFT := 260
  const KEY_RIGHT := 261
  const KEY_BACKSPACE := 263
  const KEY_DC := 330
  const KEY_ENTER := 343
  const ESC := 27

  /** The abstract line: its text and where the cursor stands in it. */
  datatype Line = Line(text: string, cursor: int)

  predicate ValidLine(l: Line) {
    0 <= l.cursor <= |l.text| < BUF && NUL !in l.text
  }

  predicate IsBackspace(ch: int) { ch == KEY_BACKSPACE || ch == 127 || ch == 8 }

  predicate IsPrintable(ch: int) { 32 <= ch < 127 }

  /** One key on the abstract line. */
  function Edit(l: Line, ch: int): Line
    requires ValidLine(l)
  {
    if IsBackspace(ch) then
      if l.cursor > 0 then Line(l.text[..l.cursor - 1] + l.text[l.cursor..], l.cursor - 1) else l
    else if ch == KEY_LEFT then if l.cursor > 0 then l.(cursor := l.cursor - 1) else l
    else if ch == KEY_RIGHT then if l.cursor < |l.text| then l.(cursor := l.cursor + 1) else l
    else if ch == KEY_DC then
      if l.cursor < |l.text| then l.(text := l.text[..l.cursor] + l.text[l.cursor + 1..]) else l
    else if IsPrintable(ch) && |l.text| < BUF - 1 then
      Line(l.text[..l.cursor] + [ch as char] + l.text[l.cursor..], l.cursor + 1)
    else l
  }

  lemma EditStaysValid(l: Line, ch: int)
    requires ValidLine(l)
    ensures ValidLine(Edit(l, ch))
  {
    assert forall i :: 0 <= i < |l.text| ==> l.text[i] in l.text;
  }

  // ---- laws of the abstract editor, over every line ----

  /** A successful insert followed by backspace restores text and cursor. */
  lemma InsertThenBackspace(l: Line, ch: int, back: int)
    requires ValidLine(l) && IsPrintable(ch) && |l.text| < BUF - 1 && IsBackspace(back)
    ensures ValidLine(Edit(l, ch)) && Edit(Edit(l, ch), back) == l
  {
    EditStaysValid(l, ch);
    var m := Edit(l, ch);
    assert m.text[..l.cursor] + m.text[l.cursor + 1..] == l.text[..l.cursor] + l.text[l.cursor..] == l.text;
  }

  /** Deleting forward is stepping right and erasing backward. */
  lemma DeleteIsRightBackspace(l: Line, back: int)
    requires ValidLine(l) && l.cursor < |l.text| && IsBackspace(back)
    ensures ValidLine(Edit(l, KEY_RIGHT)) && Edit(Edit(l, KEY_RIGHT), back) == Edit(l, KEY_DC)
  {
    EditStaysValid(l, KEY_RIGHT);
  }

  /** Erasing a printable character and typing it again restores the line. */
  lemma BackspaceThenInsert(l: Line, back: int)
    requires ValidLine(l) && l.cursor > 0 && IsBackspace(back) && IsPrintable(l.text[l.cursor - 1] as int)
    ensures ValidLine(Edit(l, back)) && Edit(Edit(l, back), l.text[l.cursor - 1] as int) == l
  {
    EditStaysValid(l, back);
    var m := Edit(l, back);
    assert m.text[..m.cursor] == l.text[..l.cursor - 1] && m.text[m.cursor..] == l.text[l.cursor..];
    assert l.text == l.text[..l.cursor - 1] + [l.text[l.cursor - 1]] + l.text[l.cursor..];
  }

  /** The arrows (260 and 261) move the cursor one place inside the line and change nothing else. */
  lemma ArrowsMove(l: Line)
    requires ValidLine(l)
    ensures Edit(l, 260) == Line(l.text, if l.cursor > 0 then l.cursor - 1 else 0)
    ensures Edit(l, 261) == Line(l.text, if l.cursor < |l.text| then l.cursor + 1 else |l.text|)
  {
  }

  /** A printable character goes in at the cursor, and everything behind moves up; at 127 characters nothing happens. */
  lemma TypedAtCursor(l: Line, ch: int)
    requires ValidLine(l) && 32 <= ch < 127
    ensures var m := Edit(l, ch);
            if |l.text| >= 127 then m == l
            else
              && m.cursor == l.cursor + 1 && |m.text| == |l.text| + 1
              && m.text[l.cursor] as int == ch
              && (forall i :: 0 <= i < l.cursor ==> m.text[i] == l.text[i])
              && (forall i :: l.cursor <= i < |l.text| ==> m.text[i + 1] == l.text[i])
  {
  }

  /** Backspace (263, 127 or 8) takes out the character before the cursor, Delete (330) the one at it. */
  lemma ErasedAtCursor(l: Line, ch: int)
    requires ValidLine(l) && (ch == 263 || ch == 127 || ch == 8 || ch == 330)
    ensures var m, at := Edit(l, ch), if ch == 330 then l.cursor else l.cursor - 1;
            if at < 0 || at >= |l.text| then m == l
            else
              && m.cursor == at && |m.text| == |l.text| - 1
              && (forall i :: 0 <= i < at ==> m.text[i] == l.text[i])
              && (forall i :: at <= i < |m.text| ==> m.text[i] == l.text[i + 1])
  {
  }

  /** No other key changes the line. */
  lemma OtherKeysLeave(l: Line, ch: int)
    requires ValidLine(l) && !(32 <= ch <= 127) && ch != 8 && ch != 260 && ch != 261 && ch != 263 && ch != 330
    ensures Edit(l, ch) == l
  {
  }

  ghost function Codes(s: string): (r: seq<int>)
    ensures |r| == |s| && forall i :: 0 <= i < |s| ==> r[i] == s[i] as int
  {
    seq(|s|, i requires 0 <= i < |s| => s[i] as int)
  }

  /** Typing a text of up to 127 printable characters into the empty line spells it. */
  lemma {:induction false} TypingSpells(s: string, n: nat)
    requires n <= |s| <= 127 && forall i :: 0 <= i < |s| ==> 32 <= s[i] as int < 127
    ensures EditAll(Line("", 0), Codes(s), n) == Line(s[..n], n)
    decreases n
  {
    if n > 0 {
      TypingSpells(s, n - 1);
      EditStaysValid(Line(s[..n - 1], n - 1), s[n - 1] as int);
      assert s[..n - 1] + [s[n - 1]] + [] == s[..n];
    }
  }

  // ---- the buffer ----

  class FilterLine {
    const buf: array<char>
    var cursor: int
    ghost var text: string

    ghost predicate Valid()
      reads this, buf
    {
      && buf.Length == BUF
      && ValidLine(Line(text, cursor))
      && (forall i :: 0 <= i < |text| ==> buf[i] == text[i])
      && buf[|text|] == NUL
    }

    ghost function View(): Line
      reads this
    {
      Line(text, cursor)
    }

    constructor ()
      ensures Valid() && View() == Line("", 0) && fresh(buf)
    {
      buf := new char[BUF](_ => NUL);
      cursor := 0;
      text := "";
    }

    method Strlen() returns (len: int)
      requires Valid()
      ensures len == |text|
    {
      len := 0;
      assert forall i :: 0 <= i < |text| ==> text[i] in text && buf[i] != NUL;
      while buf[len] != NUL
        invariant 0 <= len <= |text|
        decreases |text| - len
      {
        assert len < |text|;
        len := len + 1;
      }
    }

    /** The C string the buffer holds. */
    method Text() returns (s: string)
      requires Valid()
      ensures s == text
    {
      var len := Strlen();
      s := buf[..len];
    }

    /** `memmove` inside the buffer. */
    method Memmove(dst: int, src: int, n: int)
      requires 0 <= n && 0 <= src && 0 <= dst && src + n <= buf.Length && dst + n <= buf.Length
      modifies buf
      ensures forall i :: dst <= i < dst + n ==> buf[i] == old(buf[i - dst + src])
      ensures forall i :: 0 <= i < buf.Length && (i < dst || dst + n <= i) ==> buf[i] == old(buf[i])
    {
      ghost var before := buf[..];
      if dst <= src {
        for k := 0 to n
          invariant forall i :: dst <= i < dst + k ==> buf[i] == before[i - dst + src]
          invariant forall i :: 0 <= i < buf.Length && (i < dst || dst + k <= i) ==> buf[i] == before[i]
        {
          buf[dst + k] := buf[src + k];
        }
      } else {
        for k := n downto 0
          invariant forall i :: dst + k <= i < dst + n ==> buf[i] == before[i - dst + src]
          invariant forall i :: 0 <= i < buf.Length && (i < dst + k || dst + n <= i) ==> buf[i] == before[i]
        {
          buf[dst + k] := buf[src + k];
        }
      }
    }

    method Erase(len: int)
      requires Valid() && len == |text| && cursor > 0
      modifies this, buf
      ensures Valid() && View() == Edit(old(View()), KEY_BACKSPACE)
    {
      EditStaysValid(View(), KEY_BACKSPACE);
      Memmove(cursor - 1, cursor, len - cursor + 1);
      cursor := cursor - 1;
      text := text[..cursor] + text[cursor + 1..];
    }

    method DeleteForward(len: int)
      requires Valid() && len == |text| && cursor < len
      modifies this, buf
      ensures Valid() && View() == Edit(old(View()), KEY_DC)
    {
      EditStaysValid(View(), KEY_DC);
      Memmove(cursor, cursor + 1, len - cursor);
      text := text[..cursor] + text[cursor + 1..];
    }

    method Insert(len: int, ch: int)
      requires Valid() && len == |text| < BUF - 1 && IsPrintable(ch)
      modifies this, buf
      ensures Valid() && View() == Edit(old(View()), ch)
    {
      EditStaysValid(View(), ch);
      Memmove(cursor + 1, cursor, len - cursor + 1);
      buf[cursor] := ch as char;
      text := text[..cursor] + [ch as char] + text[cursor..];
      cursor := cursor + 1;
    }

    /** One key in filter mode; Esc and Enter leave the line alone. */
    method HandleKey(ch: int)
      requires Valid()
      modifies this, buf
      ensures Valid() && View() == Edit(old(View()), ch)
    {
      var len := Strlen();
      if ch == ESC || ch == 10 || ch == KEY_ENTER {
        return;
      }
      if IsBackspace(ch) {
        if cursor > 0 {
          Erase(len);
        }
      } else if ch == KEY_LEFT {
        if cursor > 0 {
          cursor := cursor - 1;
        }
      } else if ch == KEY_RIGHT {
        if cursor < len {
          cursor := cursor + 1;
        }
      } else if ch == KEY_DC {
        if cursor < len {
          DeleteForward(len);
        }
      } else if ch >= 32 && ch < 127 && len < BUF - 1 {
        Insert(len, ch);
      }
    }

    /** Entering filter mode puts the cursor at the end. */
    method Reopen()
      requires Valid()
      modifies this`cursor
      ensures Valid() && View() == Line(old(text), |old(text)|)
    {
      cursor := Strlen();
    }

    /** Resetting the filter empties the line. */
    method Clear()
      requires Valid()
      modifies this, buf
      ensures Valid() && View() == Line("", 0)
    {
      buf[0] := NUL;
      cursor := 0;
      text := "";
    }

    /** Every key sequence: the buffer stays terminated and the line is the edited abstract line. */
    method HandleKeys(keys: seq<int>)
      requires Valid()
      modifies this, buf
      ensures Valid() && View() == EditAll(old(View()), keys, |keys|)
    {
      for i := 0 to |keys|
        invariant Valid() && View() == EditAll(old(View()), keys, i)
      {
        HandleKey(keys[i]);
      }
    }
  }

  ghost function EditAll(l: Line, keys: seq<int>, n: nat): (r: Line)
    requires ValidLine(l) && n <= |keys|
    ensures ValidLine(r)
  {
    if n == 0 then l else
      var before := EditAll(l, keys, n - 1);
      EditStaysValid(before, keys[n - 1]);
      Edit(before, keys[n - 1])
  }
}
