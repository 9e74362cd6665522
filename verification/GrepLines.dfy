/** grep's line buffer: whatever pieces the input arrives in, the output is the matching lines. */
module GrepLines {
  import opened GrepMatch

  // char buf[1024]
  const BUF: nat := 1024

  /** The position of the first of these characters, the length if there is none. */
  function Until(s: string, stops: set<char>): (i: nat)
    ensures i <= |s| && (forall k :: 0 <= k < i ==> s[k] !in stops) && (i < |s| ==> s[i] in stops)
  {
    if s == [] || s[0] in stops then 0 else 1 + Until(s[1..], stops)
  }

  lemma {:induction false} UntilAt(s: string, stops: set<char>, i: nat)
    requires i <= |s| && (forall k :: 0 <= k < i ==> s[k] !in stops) && (i < |s| ==> s[i] in stops)
    ensures Until(s, stops) == i
  {
  }

  function Newline(s: string): (i: nat)
    ensures i <= |s| && (i < |s| ==> s[i] == '\n')
  {
    Until(s, {'\n'})
  }

  /** Where strchr stops: at the newline, or at a NUL before it. */
  function Stop(s: string): (i: nat)
    ensures i <= |s| && (i < |s| ==> s[i] == '\n' || s[i] == '\0')
  {
    Until(s, {'\n', '\0'})
  }

  /** The newline-terminated lines that match, in order; a last line without newline is not output. */
  ghost function Selected(re: string, s: string): string
    decreases |s|
  {
    var i := Newline(s);
    if i == |s| then []
    else (if Matches(re, s[..i]) then s[..i + 1] else []) + Selected(re, s[i + 1..])
  }

  /** What grep shows: the same, but only up to the first line that holds a NUL or more than 1022
      bytes.  No newline is found in such a line, so it stays, fills the buffer and ends the run. */
  ghost function Shown(re: string, s: string): string
    decreases |s|
  {
    var i := Stop(s);
    if i == |s| || s[i] == '\0' || i > BUF - 2 then []
    else (if Matches(re, s[..i]) then s[..i + 1] else []) + Shown(re, s[i + 1..])
  }

  /** No finished line holds a NUL or has more than 1022 bytes. */
  predicate PlainLines(s: string)
    decreases |s|
  {
    var i := Newline(s);
    i < |s| ==> i <= BUF - 2 && '\0' !in s[..i] && PlainLines(s[i + 1..])
  }

  /** strchr finds the newline exactly if there is no NUL before it. */
  lemma {:induction false} StopIsNewline(s: string)
    ensures '\0' !in s[..Newline(s)] && Newline(s) < |s| ==> Stop(s) == Newline(s)
    ensures '\0' in s[..Newline(s)] ==> Stop(s) < |s| && s[Stop(s)] == '\0'
    ensures Newline(s) == |s| ==> Stop(s) == |s| || s[Stop(s)] == '\0'
  {
    var i := Newline(s);
    if '\0' !in s[..i] && i < |s| {
      assert forall k :: 0 <= k < i ==> s[k] == s[..i][k];
      UntilAt(s, {'\n', '\0'}, i);
    }
  }

  lemma {:induction false} PlainShown(re: string, s: string)
    requires PlainLines(s)
    ensures Shown(re, s) == Selected(re, s)
    decreases |s|
  {
    hide Matches, Newline, Stop;
    StopIsNewline(s);
    if Newline(s) < |s| { PlainShown(re, s[Newline(s) + 1..]); }
  }

  /** The empty pattern matches every line. */
  lemma {:induction false} EmptyMatches(text: string)
    ensures Matches("", text)
  {
    HereNone(text, 0);
  }

  /** Under the empty pattern a line that is not plain, and all behind it, is missing. */
  lemma {:induction false} EmptyShown(s: string)
    ensures |Shown("", s)| <= |Selected("", s)|
    ensures !PlainLines(s) ==> |Shown("", s)| < |Selected("", s)|
    decreases |s|
  {
    hide Matches, Newline, Stop;
    var i := Newline(s);
    StopIsNewline(s);
    if i < |s| {
      EmptyMatches(s[..i]);
      EmptyShown(s[i + 1..]);
    }
  }

  /** All matching lines are shown for every pattern if and only if every finished line is plain. */
  lemma {:induction false} ShownIsSelected(s: string)
    ensures (forall re :: Shown(re, s) == Selected(re, s)) <==> PlainLines(s)
  {
    hide Shown, Selected, PlainLines;
    EmptyShown(s);
    if PlainLines(s) {
      forall re ensures Shown(re, s) == Selected(re, s) { PlainShown(re, s); }
    } else {
      assert Shown("", s) != Selected("", s);
    }
  }

  /** The failure is reachable: a line of 1023 bytes that matches is not shown. */
  lemma LongLineExample(c: char)
    requires c != '\n' && c != '\0'
    ensures var line := seq(1023, _ => c) + "\n"; Selected("", line) == line && Shown("", line) == []
  {
    var text := seq(1023, _ => c);
    var line := text + "\n";
    UntilAt(line, {'\n'}, 1023);
    UntilAt(line, {'\n', '\0'}, 1023);
    EmptyMatches(line[..1023]);
    assert line[..1024] == line && line[1024..] == [];
  }

  /** strchr finds no newline in s, whatever follows. */
  predicate OneLine(s: string) { Stop(s) < |s| ==> s[Stop(s)] == '\0' }

  /** Taking the first line off the text. */
  lemma {:induction false} LineStep(re: string, s: string, i: nat, more: string)
    requires i < |s| < BUF && s[i] == '\n' && Stop(s) == i
    ensures Shown(re, s + more) == (if Matches(re, s[..i]) then s[..i + 1] else []) + Shown(re, s[i + 1..] + more)
  {
    hide Matches, Until;
    var t := s + more;
    assert forall k :: 0 <= k <= i ==> t[k] == s[k];
    assert Stop(t) == i by { UntilAt(t, {'\n', '\0'}, i); }
    hide Stop;
    assert t[..i] == s[..i] && t[..i + 1] == s[..i + 1] && t[i + 1..] == s[i + 1..] + more;
  }

  /** Nothing more comes of an unfinished line at the end of the input, or of one that fills the
      buffer or holds a NUL. */
  lemma {:induction false} NoLine(re: string, s: string, more: string)
    requires OneLine(s) && (more == [] || |s| >= BUF - 1)
    ensures Shown(re, s + more) == []
  {
    var t, i := s + more, Stop(s);
    assert forall k :: 0 <= k < |s| ==> t[k] == s[k];
    if i < |s| { UntilAt(t, {'\n', '\0'}, i); }
  }

  /** strchr for a newline; m stands for the NUL behind the text and for a null result. */
  method FindNewline(buf: array<char>, p: nat, m: nat) returns (q: nat)
    requires p <= m <= buf.Length
    ensures p <= q <= m && (q < m ==> buf[q] == '\n' && Stop(buf[p..m]) == q - p)
    ensures q == m ==> OneLine(buf[p..m])
  {
    q := p;
    ghost var s := buf[p..m];
    while q < m && buf[q] != '\0'
      invariant p <= q <= m && forall k :: 0 <= k < q - p ==> s[k] != '\n' && s[k] != '\0'
    {
      if buf[q] == '\n' {
        UntilAt(s, {'\n', '\0'}, q - p);
        return;
      }
      q := q + 1;
    }
    UntilAt(s, {'\n', '\0'}, q - p);
    q := m;
  }

  /** Writes the lines buf[..m] completes, matching ones only, and tells where the unfinished one
      starts; more is the input still to come. */
  method TakeLines(re: string, buf: array<char>, m: nat, ghost more: string) returns (out: string, p: nat)
    requires m < buf.Length == BUF
    ensures p <= m && OneLine(buf[p..m]) && Shown(re, buf[..m] + more) == out + Shown(re, buf[p..m] + more)
  {
    hide Shown, Matches, OneLine, Stop;
    out, p := [], 0;
    assert buf[0..m] == buf[..m];
    while true
      invariant p <= m && Shown(re, buf[..m] + more) == out + Shown(re, buf[p..m] + more)
      decreases m - p
    {
      var q := FindNewline(buf, p, m);
      if q == m { break; }
      var hit := Match(re, buf[p..q]);
      ghost var s, i := buf[p..m], q - p;
      assert s[..i] == buf[p..q] && s[..i + 1] == buf[p..q + 1] && s[i + 1..] == buf[q + 1..m] && s[i] == '\n';
      LineStep(re, s, i, more);
      Regroup(out, if hit then buf[p..q + 1] else [], Shown(re, buf[q + 1..m] + more));
      if hit { out := out + buf[p..q + 1]; }
      p := q + 1;
    }
  }

  /** grep on one input; piece tells how many bytes the k-th read delivers, as far as there are that
      many and they fit; a full buffer asks for none and ends the run. */
  method Grep(re: string, data: string, piece: nat -> nat) returns (out: string)
    ensures out == Shown(re, data)
    ensures PlainLines(data) ==> out == Selected(re, data)
  {
    hide Shown, OneLine, Selected, PlainLines;
    if PlainLines(data) { PlainShown(re, data); }
    var buf := new char[BUF];
    var m: nat, pos: nat, k: nat := 0, 0, 0;
    out := [];
    assert buf[..0] + data[0..] == data;
    NoneHeld(buf[..0]);
    while pos < |data| && m < BUF - 1
      invariant pos <= |data| && m <= BUF - 1 && OneLine(buf[..m])
      invariant Shown(re, data) == out + Shown(re, buf[..m] + data[pos..])
      decreases |data| - pos
    {
      var n := Delivered(piece(k), BUF - m - 1, |data| - pos);
      k := k + 1;
      Rejoin(buf[..m], data, pos, n);
      Fill(buf, m, data[pos..pos + n]);
      m, pos := m + n, pos + n;
      var lines, p := TakeLines(re, buf, m, data[pos..]);
      Regroup(out, lines, Shown(re, buf[p..m] + data[pos..]));
      out := out + lines;
      MoveDown(buf, p, m);
      m := m - p;
    }
    NoLine(re, buf[..m], data[pos..]);
  }

  /** Appends what was read. */
  method Fill(buf: array<char>, m: nat, s: string)
    requires m + |s| <= buf.Length
    modifies buf
    ensures buf[..m + |s|] == old(buf[..m]) + s
  {
    forall i | 0 <= i < |s| { buf[m + i] := s[i]; }
  }

  /** memmove of the unfinished line to the front. */
  method MoveDown(buf: array<char>, p: nat, m: nat)
    requires p <= m <= buf.Length
    modifies buf
    ensures buf[..m - p] == old(buf[p..m])
  {
    forall i | 0 <= i < m - p { buf[i] := buf[p + i]; }
  }

  lemma {:induction false} NoneHeld(s: string)
    requires s == []
    ensures OneLine(s)
  {
  }

  lemma {:induction false} Rejoin(a: string, data: string, pos: nat, n: nat)
    requires pos + n <= |data|
    ensures a + data[pos..] == a + data[pos..pos + n] + data[pos + n..]
  {
  }

  lemma {:induction false} Regroup(a: string, b: string, c: string)
    ensures a + (b + c) == a + b + c
  {
  }

  /** read: at least one byte, at most what was asked for and what is left. */
  function Delivered(wanted: nat, room: nat, left: nat): (n: nat)
    requires room > 0 && left > 0
    ensures 1 <= n <= room && n <= left
  {
    var most := if room < left then room else left;
    if wanted == 0 then 1 else if wanted < most then wanted else most
  }
}
