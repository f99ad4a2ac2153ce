/** The line discipline of the terminal (kernel/src/dev/dev_tty.c): typed characters are edited in a
    ring of 1024 bytes and handed out line by line. */
module TtyInput {
  import opened Words

  const SIZE := 1024
  const NUL := '\0'
  const BACKSPACE := 8 as char

  // ---------------------------------------------------------------- what a typist means

  /** The finished lines and the line being typed. */
  datatype Text = Text(lines: seq<string>, current: string)

  /** One key other than newline, on the line being typed. */
  function EditKey(line: string, ch: char): string {
    if ch != BACKSPACE then line + [ch] else if line == "" then "" else line[..|line| - 1]
  }

  /** One key: newline finishes the line, backspace takes back a character of the current line
      only. */
  function Key(t: Text, ch: char): Text {
    if ch == '\n' then Text(t.lines + [t.current + ['\n']], "")
    else Text(t.lines, EditKey(t.current, ch))
  }

  function Typed(keys: string): Text {
    if keys == "" then Text([], "") else Key(Typed(keys[..|keys| - 1]), keys[|keys| - 1])
  }

  /** Backspace editing of one line on its own. */
  function EditLine(keys: string): string {
    if keys == "" then "" else EditKey(EditLine(keys[..|keys| - 1]), keys[|keys| - 1])
  }

  lemma EditOne(keys: string, ch: char)
    ensures EditLine(keys + [ch]) == EditKey(EditLine(keys), ch)
  {
    assert (keys + [ch])[..|keys|] == keys;
  }

  /** What was typed so far counts only by what it has come to. */
  lemma {:induction false} EditGoesOn(a: string, b: string, more: string)
    requires EditLine(a) == EditLine(b)
    ensures EditLine(a + more) == EditLine(b + more)
    decreases |more|
  {
    if more == "" {
      assert a + more == a && b + more == b;
    } else {
      var n := |more| - 1;
      EditGoesOn(a, b, more[..n]);
      assert a + more == (a + more[..n]) + [more[n]] && b + more == (b + more[..n]) + [more[n]];
      EditOne(a + more[..n], more[n]);
      EditOne(b + more[..n], more[n]);
    }
  }

  /** A line without backspaces is what was typed; a backspace undoes the character typed before it, wherever
      they stand; and one at the beginning of a line does nothing. With these three, any line can be
      reduced to the characters that are left. */
  lemma {:induction false} EditIsUndo(a: string, ch: char, more: string)
    requires ch != BACKSPACE
    ensures BACKSPACE !in a ==> EditLine(a) == a
    ensures EditLine(a + [ch] + [BACKSPACE] + more) == EditLine(a + more)
    ensures EditLine([BACKSPACE] + more) == EditLine(more)
    decreases |a|
  {
    if a != "" { EditIsUndo(a[..|a| - 1], ch, more); }
    EditOne(a, ch);
    EditOne(a + [ch], BACKSPACE);
    EditGoesOn(a + [ch] + [BACKSPACE], a, more);
    EditOne("", BACKSPACE);
    assert "" + [BACKSPACE] == [BACKSPACE] && "" + more == more;
    EditGoesOn([BACKSPACE], "", more);
  }

  lemma {:induction false} OneLine(keys: string)
    requires '\n' !in keys
    ensures Typed(keys) == Text([], EditLine(keys))
  {
    if keys != "" { OneLine(keys[..|keys| - 1]); }
  }

  /** Lines are edited independently: the first finished line is the edited text before the first
      newline, and nothing typed later reaches back into it. */
  lemma {:induction false} FirstLine(first: string, rest: string)
    requires '\n' !in first
    ensures Typed(first + ['\n'] + rest) == Text([EditLine(first) + ['\n']] + Typed(rest).lines, Typed(rest).current)
    decreases |rest|
  {
    var line := first + ['\n'];
    if rest == "" {
      assert line + rest == line;
      OneLine(first);
      Unfold(first, '\n');
    } else {
      var n := |rest| - 1;
      FirstLine(first, rest[..n]);
      LastKey(line, rest);
      Unfold(line + rest[..n], rest[n]);
      KeyBehind([EditLine(first) + ['\n']], Typed(rest[..n]), rest[n]);
    }
  }

  lemma LastKey(line: string, rest: string)
    requires rest != ""
    ensures line + rest == (line + rest[..|rest| - 1]) + [rest[|rest| - 1]]
  {
  }

  /** Lines that are finished already only stand in front. */
  lemma KeyBehind(done: seq<string>, t: Text, ch: char)
    ensures Key(Text(done + t.lines, t.current), ch) == Text(done + Key(t, ch).lines, Key(t, ch).current)
  {
    assert done + (t.lines + [t.current + ['\n']]) == (done + t.lines) + [t.current + ['\n']];
  }

  /** What is typed between newlines: the k-th piece of keys. */
  function Pieces(keys: string): (p: seq<string>)
    ensures |p| >= 1
  {
    if keys == "" then [""]
    else
      var p := Pieces(keys[1..]);
      if keys[0] == '\n' then [""] + p else [[keys[0]] + p[0]] + p[1..]
  }

  function Joined(pieces: seq<string>): string
    requires |pieces| >= 1
  {
    if |pieces| == 1 then pieces[0] else pieces[0] + ['\n'] + Joined(pieces[1..])
  }

  /** The pieces are what was typed, split at every newline. */
  lemma {:induction false} PiecesJoined(keys: string)
    ensures Joined(Pieces(keys)) == keys
    ensures forall k :: 0 <= k < |Pieces(keys)| ==> '\n' !in Pieces(keys)[k]
  {
    if keys != "" {
      var p, rest := Pieces(keys), Pieces(keys[1..]);
      PiecesJoined(keys[1..]);
      assert keys == [keys[0]] + keys[1..];
      if keys[0] == '\n' {
        assert p[1..] == rest;
      } else {
        assert p[1..] == rest[1..];
        assert p[0] == [keys[0]] + rest[0];
      }
    }
  }

  lemma {:induction false} PiecesAfter(first: string, rest: string)
    requires '\n' !in first
    ensures Pieces(first) == [first] && Pieces(first + ['\n'] + rest) == [first] + Pieces(rest)
    decreases |first|
  {
    var keys := first + ['\n'] + rest;
    if first == "" {
      assert keys[1..] == rest;
    } else {
      PiecesAfter(first[1..], rest);
      assert keys[1..] == first[1..] + ['\n'] + rest;
      assert [first[0]] + first[1..] == first;
    }
  }

  /** The k-th finished line is the k-th piece of what was typed, edited, with its newline; the
      current line is the last piece, edited. */
  lemma {:induction false} LinesArePieces(keys: string)
    ensures |Typed(keys).lines| == |Pieces(keys)| - 1
    ensures forall k :: 0 <= k < |Typed(keys).lines| ==> Typed(keys).lines[k] == EditLine(Pieces(keys)[k]) + ['\n']
    ensures Typed(keys).current == EditLine(Pieces(keys)[|Pieces(keys)| - 1])
    decreases |keys|
  {
    if '\n' !in keys {
      OneLine(keys);
      PiecesAfter(keys, "");
    } else {
      var i := FirstNewline(keys);
      var first, rest := keys[..i], keys[i + 1..];
      assert keys == first + ['\n'] + rest;
      FirstLine(first, rest);
      PiecesAfter(first, rest);
      LinesArePieces(rest);
    }
  }

  lemma FirstNewline(keys: string) returns (i: nat)
    requires '\n' in keys
    ensures i < |keys| && keys[i] == '\n' && '\n' !in keys[..i]
  {
    i := 0;
    while keys[i] != '\n'
      invariant i < |keys| && '\n' !in keys[..i]
      decreases |keys| - i
    {
      assert keys[..i + 1] == keys[..i] + [keys[i]];
      i := i + 1;
    }
  }

  lemma {:induction false} Unfold(keys: string, ch: char)
    ensures Typed(keys + [ch]) == Key(Typed(keys), ch)
  {
    assert (keys + [ch])[..|keys|] == keys;
  }

  /** A finished line never changes, whatever is typed later. */
  lemma {:induction false} LinesStay(keys: string, more: string)
    ensures Typed(keys).lines <= Typed(keys + more).lines
    decreases |more|
  {
    if more == "" {
      assert keys + more == keys;
    } else {
      var n := |more| - 1;
      LinesStay(keys, more[..n]);
      Unfold(keys + more[..n], more[n]);
      LastKey(keys, more);
    }
  }

  /** Neither lines nor the current line hold a NUL, and a line ends in its only newline. */
  lemma {:induction false} TypedText(keys: string)
    requires NUL !in keys
    ensures TextOk(Typed(keys))
  {
    if keys != "" {
      var before := Typed(keys[..|keys| - 1]);
      TypedText(keys[..|keys| - 1]);
      KeyOk(before, keys[|keys| - 1]);
    }
  }

  ghost predicate TextOk(t: Text) {
    var holds :=
      && NUL !in t.current && '\n' !in t.current
      && forall l :: l in t.lines ==> LineOk(l);
    holds
  }

  ghost predicate LineOk(l: string) {
    |l| > 0 && l[|l| - 1] == '\n' && NUL !in l && '\n' !in l[..|l| - 1]
  }

  lemma KeyOk(t: Text, ch: char)
    requires TextOk(t) && ch != NUL
    ensures TextOk(Key(t, ch))
  {
    if ch == '\n' { assert (t.current + ['\n'])[..|t.current|] == t.current; }
  }

  // ---------------------------------------------------------------- the bytes of the ring

  /** Every unread line with a NUL behind it. */
  function Stored(lines: seq<string>): string {
    if lines == [] then "" else lines[0] + [NUL] + Stored(lines[1..])
  }

  lemma {:induction false} StoredAppend(lines: seq<string>, l: string)
    ensures Stored(lines + [l]) == Stored(lines) + l + [NUL]
  {
    if lines == [] {
      assert Stored([l][1..]) == "";
    } else {
      assert (lines + [l])[1..] == lines[1..] + [l];
      StoredAppend(lines[1..], l);
    }
  }

  lemma {:induction false} StoredEndsInNul(lines: seq<string>)
    ensures lines != [] ==> |Stored(lines)| > 0 && Stored(lines)[|Stored(lines)| - 1] == NUL
  {
    if lines != [] { StoredEndsInNul(lines[1..]); }
  }

  /** Cell i behind front in the ring. */
  function At(front: nat, i: nat): nat
    requires front < SIZE && i <= SIZE
  {
    if front + i < SIZE then front + i else front + i - SIZE
  }

  class LineQueue {
    const buf: array<char>
    var front: nat
    var rear: nat
    var cooked: nat
    ghost var typed: string
    ghost var taken: nat
    ghost var pending: nat      // readers past the semaphore that have not taken their line yet

    /** The unread part of the text. */
    ghost function Unread(): seq<string>
      reads this
      requires taken <= |Typed(typed).lines|
    {
      Typed(typed).lines[taken..]
    }

    ghost function Content(): string
      reads this
      requires taken <= |Typed(typed).lines|
    {
      Stored(Unread()) + Typed(typed).current
    }

    /** The ring from front to rear holds the unread text; the cell before front and the cell at
        rear are NUL; cooked and the readers on their way to the lock count the unread lines. */
    ghost predicate Valid()
      reads this, buf
    {
      && NUL !in typed && taken <= |Typed(typed).lines| && cooked + pending == |Unread()|
      && Holds(buf[..], front, rear, Content())
    }

    /** The cells start zeroed. */
    constructor ()
      ensures Valid() && fresh(buf) && typed == "" && taken == 0 && pending == 0
    {
      buf := new char[SIZE](_ => NUL);
      front, rear, cooked, typed, taken, pending := 0, 0, 0, "", 0, 0;
    }

    /** tty_enqueue: full is the panic of a ring that would look empty. */
    method Enqueue(ch: char, ghost content: string) returns (full: bool)
      requires Holds(buf[..], front, rear, content)
      modifies `rear, buf
      ensures full <==> |content| == SIZE - 1
      ensures !full ==> Holds(buf[..], front, rear, content + [ch])
    {
      buf[rear] := ch;
      rear := rear + 1;
      if rear == SIZE { rear := 0; }
      if rear == front { return true; }
      buf[rear] := NUL;
      full := false;
    }

    /** tty_pop_back: takes back the last byte, unless that is a NUL: the end of a finished line, or
        what precedes front. The program's test of front against the end always holds. */
    method PopBack(ghost content: string) returns (ret: nat)
      requires Holds(buf[..], front, rear, content)
      modifies `rear, buf
      ensures ret == (if content == "" || content[|content| - 1] == NUL then 1 else 0)
      ensures Holds(buf[..], front, rear, if ret == 0 then content[..|content| - 1] else content)
    {
      var pos := if rear == 0 then SIZE else rear;
      if buf[pos - 1] != NUL {
        rear := pos - 1;
        buf[rear] := NUL;
        return 0;
      }
      return 1;
    }

    /** The switch of tty_cook, on the bytes of the ring. */
    method EditBytes(ch: char, ghost content: string) returns (ret: nat, full: bool)
      requires Holds(buf[..], front, rear, content)
      modifies `rear, `cooked, buf
      ensures full <==> |content| + (if ch == '\n' then 2 else if ch == BACKSPACE then 0 else 1) >= SIZE
      ensures ret == if ch == BACKSPACE && AtLineStart(content) then 1 else 0
      ensures !full ==> Holds(buf[..], front, rear, AfterKey(content, ch))
      ensures !full ==> cooked == old(cooked) + if ch == '\n' then 1 else 0
    {
      ret, full := 0, false;
      if ch == '\n' {
        full := Enqueue(ch, content);
        if full { return; }
        full := Enqueue(NUL, content + [ch]);
        if full { return; }
        cooked := cooked + 1;
      } else if ch == BACKSPACE {
        ret := PopBack(content);
      } else {
        full := Enqueue(ch, content);
      }
    }

    /** tty_cook: one key. The result says whether there was nothing to take back; full is the panic
        of a ring without room. */
    method Cook(ch: char) returns (ret: nat, full: bool)
      requires Valid() && ch != NUL
      modifies this, buf
      ensures full <==> |old(Content())| + (if ch == '\n' then 2 else if ch == BACKSPACE then 0 else 1) >= SIZE
      ensures !full ==> Valid() && typed == old(typed) + [ch] && taken == old(taken) && pending == old(pending)
      ensures ret == if ch == BACKSPACE && old(Typed(typed).current) == "" then 1 else 0
    {
      ghost var content := ContentOf(typed, taken);
      LastByte(typed, taken);
      ContentAfter(typed, ch, taken);
      ret, full := EditBytes(ch, content);
      typed := typed + [ch];
    }

    /** The first half of tty_read: the reader passes the semaphore. */
    method PassCooked()
      requires Valid() && cooked > 0
      modifies `cooked, `pending
      ensures Valid() && cooked == old(cooked) - 1 && pending == old(pending) + 1
    {
      cooked := cooked - 1;
      pending := pending + 1;
    }

    /** The second half, under the lock: the next line, cut to count. Keys and other readers may
        have come in between. */
    method TakeLine(count: nat) returns (line: string)
      requires Valid() && pending > 0
      modifies `front, `taken, `pending
      ensures Valid() && taken == old(taken) + 1 && pending == old(pending) - 1
      ensures var next := Typed(typed).lines[old(taken)]; line == next[..if count < |next| then count else |next|]
    {
      ghost var next := Unread()[0];
      ghost var content := Content();
      ghost var start, cut := front, if count < |next| then count else |next|;
      FirstStored(typed, taken);
      line := "";
      ghost var i := 0;
      var more := true;
      while more
        invariant 0 <= i <= |next| + 1 && front < SIZE
        invariant more ==> i <= |next|
        invariant front == At(start, i)
        invariant line == next[..if i < cut then i else cut]
        invariant !more ==> i == |next| + 1
        modifies `front
        decreases |next| + 1 - i
      {
        assert i < |content| && buf[front] == content[i];
        assert content[i] == NUL <==> i == |next|;
        var ch := buf[front];
        if |line| < count && ch != NUL {
          line := line + [ch];
        }
        front := front + 1;
        if front == SIZE { front := 0; }
        if ch == NUL { more := false; }
        i := i + 1;
      }
      taken := taken + 1;
      pending := pending - 1;
      DropFirst(buf[..], start, rear, content, |next| + 1);
    }

    /** tty_read with nothing in between. */
    method Read(count: nat) returns (line: string)
      requires Valid() && cooked > 0
      modifies `cooked, `front, `taken, `pending
      ensures Valid() && taken == old(taken) + 1 && cooked == old(cooked) - 1 && pending == old(pending)
      ensures var next := Typed(typed).lines[old(taken)]; line == next[..if count < |next| then count else |next|]
    {
      PassCooked();
      line := TakeLine(count);
    }
  }

  ghost predicate Holds(cells: string, front: nat, rear: nat, content: string) {
    && |cells| == SIZE && front < SIZE && |content| < SIZE && rear == At(front, |content|)
    && (forall i {:trigger content[i]} :: 0 <= i < |content| ==> cells[At(front, i)] == content[i])
    && cells[rear] == NUL && cells[At(front, SIZE - 1)] == NUL
  }

  ghost function ContentOf(keys: string, taken: nat): string
    requires taken <= |Typed(keys).lines|
  {
    Stored(Typed(keys).lines[taken..]) + Typed(keys).current
  }

  predicate AtLineStart(content: string) {
    content == "" || content[|content| - 1] == NUL
  }

  function AfterKey(content: string, ch: char): string {
    if ch == '\n' then content + ['\n'] + [NUL]
    else if ch == BACKSPACE then (if AtLineStart(content) then content else content[..|content| - 1])
    else content + [ch]
  }

  /** What is behind front ends in NUL exactly when the current line is empty. */
  lemma LastByte(keys: string, taken: nat)
    requires NUL !in keys && taken <= |Typed(keys).lines|
    ensures AtLineStart(ContentOf(keys, taken)) <==> Typed(keys).current == ""
  {
    TypedText(keys);
    StoredEndsInNul(Typed(keys).lines[taken..]);
  }

  lemma ContentAfter(keys: string, ch: char, taken: nat)
    requires NUL !in keys && ch != NUL && taken <= |Typed(keys).lines|
    ensures NUL !in keys + [ch] && taken <= |Typed(keys + [ch]).lines|
    ensures |Typed(keys + [ch]).lines| == |Typed(keys).lines| + if ch == '\n' then 1 else 0
    ensures var c := ContentOf(keys, taken);
            ContentOf(keys + [ch], taken) == AfterKey(c, ch)
  {
    Unfold(keys, ch);
    LastByte(keys, taken);
    var t := Typed(keys);
    TypedText(keys);
    BytesAfterKey(t.lines, taken, t.current, ch);
  }

  lemma BytesAfterKey(lines: seq<string>, taken: nat, current: string, ch: char)
    requires taken <= |lines| && NUL !in current
    ensures var t, t' := Text(lines, current), Key(Text(lines, current), ch);
            && taken <= |t'.lines|
            && Stored(t'.lines[taken..]) + t'.current == AfterKey(Stored(lines[taken..]) + current, ch)
  {
    var s := Stored(lines[taken..]);
    StoredEndsInNul(lines[taken..]);
    if ch == '\n' {
      var l := current + ['\n'];
      assert (lines + [l])[taken..] == lines[taken..] + [l];
      StoredAppend(lines[taken..], l);
      NewlineBytes(s, current);
    } else if ch == BACKSPACE {
      BackspaceBytes(s, current);
    } else {
      assert s + (current + [ch]) == (s + current) + [ch];
    }
  }

  lemma NewlineBytes(s: string, current: string)
    ensures s + (current + ['\n']) + [NUL] + "" == (s + current) + ['\n'] + [NUL]
  {
  }

  lemma BackspaceBytes(s: string, current: string)
    requires NUL !in current && (s != "" ==> s[|s| - 1] == NUL)
    ensures AfterKey(s + current, BACKSPACE) == s + if current == "" then "" else current[..|current| - 1]
  {
    var c := s + current;
    if current == "" {
      assert c == s;
    } else {
      assert c[|c| - 1] == current[|current| - 1];
      assert c[..|c| - 1] == s + current[..|current| - 1];
    }
  }

  /** The next line sits at front, and only its end is NUL. */
  lemma FirstStored(keys: string, taken: nat)
    requires NUL !in keys && taken < |Typed(keys).lines|
    ensures var c, l := ContentOf(keys, taken), Typed(keys).lines[taken];
            && |l| < |c| && c[|l|] == NUL && (forall i {:trigger c[i]} :: 0 <= i < |l| ==> c[i] == l[i] && c[i] != NUL)
            && ContentOf(keys, taken + 1) == c[|l| + 1..]
  {
    TypedText(keys);
    var t := Typed(keys);
    var l := t.lines[taken];
    assert l in t.lines && LineOk(l);
    assert t.lines[taken..][1..] == t.lines[taken + 1..] && t.lines[taken..][0] == l;
    var tail := Stored(t.lines[taken + 1..]);
    assert Stored(t.lines[taken..]) == l + [NUL] + tail;
    LineInFront(l, tail, t.current);
  }

  lemma LineInFront(l: string, tail: string, current: string)
    requires LineOk(l)
    ensures var c := l + [NUL] + tail + current;
            && |l| < |c| && c[|l|] == NUL && (forall i {:trigger c[i]} :: 0 <= i < |l| ==> c[i] == l[i] && c[i] != NUL)
            && tail + current == c[|l| + 1..]
  {
  }

  lemma DropFirst(cells: string, front: nat, rear: nat, content: string, n: nat)
    requires Holds(cells, front, rear, content) && 0 < n <= |content| && content[n - 1] == NUL
    ensures Holds(cells, At(front, n), rear, content[n..])
  {
    var front' := At(front, n);
    forall i {:trigger content[n..][i]} | 0 <= i < |content| - n ensures cells[At(front', i)] == content[n..][i] {
      assert content[n..][i] == content[n + i];
      assert At(front', i) == At(front, n + i);
    }
    assert At(front', SIZE - 1) == At(front, n - 1);
  }
}
