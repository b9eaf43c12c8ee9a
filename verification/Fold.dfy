/**
  The folding of a property's line (fold_property_line of icalproperty.c).  The characters of
  a string are bytes.
 */
module Fold {
  import opened Sequences

  const CRLF := "\r\n"

  /** What a line is broken by. */
  const BREAK := "\r\n "

  const MAX_LINE := 75

  predicate Separator(c: char) {
    c == ';' || c == ':' || c == ' '
  }

  /** A byte that starts a character of UTF-8. */
  predicate Boundary(c: char) {
    c as int / 128 % 2 == 0 || c as int / 64 % 4 == 3
  }

  /** The last position up to pos that holds a character of the sort, or 0; position 0 does not count. */
  function LastOf(s: string, pos: nat, sort: char -> bool): (r: nat)
    requires pos < |s|
    ensures r <= pos && (r > 0 ==> sort(s[r]))
    ensures forall i :: r < i <= pos ==> !sort(s[i])
  {
    if pos == 0 || sort(s[pos]) then pos else LastOf(s, pos - 1, sort)
  }

  /** How much of the text goes on the next line: up to a separator, else to the start of a character. */
  function NextLine(s: string): (n: nat)
    ensures s != "" ==> 0 < n <= |s|
    ensures n < MAX_LINE
  {
    if |s| < MAX_LINE then |s|
    else
      var separator := LastOf(s, MAX_LINE - 2, Separator);
      var boundary := LastOf(s, MAX_LINE - 1, Boundary);
      if separator > 0 then separator + 1 else if boundary > 0 then boundary else MAX_LINE - 1
  }

  predicate SeparatorAt(s: string, k: nat) {
    k < |s| && (s[k] == ';' || s[k] == ':' || s[k] == ' ')
  }

  /** The byte goes on with a character of UTF-8. */
  predicate Continuation(c: char) {
    128 <= c as int < 192
  }

  predicate CharacterAt(s: string, k: nat) {
    k < |s| && !Continuation(s[k])
  }

  /**
    Of 75 characters or more, the next line ends with the last separator up to position 73; if
    there is none, it ends before the last character that starts up to position 74.
   */
  lemma NextLineExact(s: string, n: nat)
    requires forall c <- s :: c as int < 256
    ensures n == NextLine(s) <==>
            if |s| < 75 then n == |s|
            else if exists k :: 1 <= k <= 73 && SeparatorAt(s, k) then
              2 <= n <= 74 && SeparatorAt(s, n - 1) && forall k :: n <= k <= 73 ==> !SeparatorAt(s, k)
            else if exists k :: 1 <= k <= 74 && CharacterAt(s, k) then
              1 <= n <= 74 && CharacterAt(s, n) && forall k :: n < k <= 74 ==> !CharacterAt(s, k)
            else n == 74
  {
    if |s| >= 75 {
      assert forall k :: 0 <= k < |s| ==> s[k] in s;
      var separator, boundary := LastOf(s, 73, Separator), LastOf(s, 74, Boundary);
      assert forall k :: 0 <= k <= 73 ==> (SeparatorAt(s, k) <==> Separator(s[k]));
      forall k | 0 <= k <= 74 ensures CharacterAt(s, k) <==> Boundary(s[k]) {
        BoundaryExact(s[k]);
      }
      if separator > 0 {
        assert SeparatorAt(s, separator);
      } else if boundary > 0 {
        assert CharacterAt(s, boundary);
      }
    }
  }

  lemma BoundaryExact(c: char)
    requires c as int < 256
    ensures Boundary(c) <==> !Continuation(c)
  {
  }

  /** The loop of the routine below for one sort of character. */
  method StepBack(s: string, from: nat, sort: char -> bool) returns (pos: nat)
    requires from < |s|
    ensures pos == LastOf(s, from, sort)
  {
    pos := from;
    while pos > 0 && !sort(s[pos])
      invariant pos <= from && LastOf(s, pos, sort) == LastOf(s, from, sort)
    {
      pos := pos - 1;
    }
  }

  method GetNextLineStart(s: string) returns (n: nat)
    ensures n == NextLine(s)
  {
    if |s| < MAX_LINE {
      return |s|;
    }
    n := StepBack(s, MAX_LINE - 2, Separator);
    if n > 0 {
      return n + 1;
    }
    n := StepBack(s, MAX_LINE - 1, Boundary);
    if n == 0 {
      n := MAX_LINE - 1;
    }
  }

  /** The text in pieces of fewer than 75 characters, with breaks between them. */
  function Folded(s: string): string
    decreases |s|
  {
    if s == "" then ""
    else
      var n := NextLine(s);
      if n == |s| then s else s[..n] + (BREAK + Folded(s[n..]))
  }

  /** What the loop still adds, a break in front unless it is the first line. */
  function Rest(s: string, first: bool): string {
    if s == "" then "" else if first then Folded(s) else BREAK + Folded(s)
  }

  function Opened(buf: string, first: bool): string {
    if first then buf else buf + BREAK
  }

  lemma OpenedRest(buf: string, s: string, first: bool)
    requires s != ""
    ensures buf + Rest(s, first) == Opened(buf, first) + Folded(s)
  {
    if !first {
      Assoc(buf, BREAK, Folded(s));
    }
  }

  /** One turn of the loop, from the buffer with its break. */
  lemma FoldStep(buf: string, s: string)
    requires s != ""
    ensures buf + Folded(s) == (buf + s[..NextLine(s)]) + Rest(s[NextLine(s)..], false)
  {
    var n := NextLine(s);
    if n == |s| {
      assert s[..n] == s;
      NothingAfter(buf + s);
    } else {
      Assoc(buf, s[..n], BREAK + Folded(s[n..]));
    }
  }

  method FoldPropertyLine(text: string) returns (buf: string)
    ensures buf == Folded(text)
  {
    buf := "";
    var rest, first := text, true;
    while rest != ""
      invariant buf + Rest(rest, first) == Folded(text)
      decreases |rest|
    {
      OpenedRest(buf, rest, first);
      if !first {
        buf := buf + BREAK;
      }
      first := false;
      FoldStep(buf, rest);
      var n := GetNextLineStart(rest);
      buf := buf + rest[..n];
      rest := rest[n..];
    }
    NothingAfter(buf);
  }

  // ------------------------------------------------------------------------ unfolding

  /** The text without its breaks, read from the left. */
  function Unfolded(s: string): string
    decreases |s|
  {
    if s == "" then "" else if BREAK <= s then Unfolded(s[3..]) else [s[0]] + Unfolded(s[1..])
  }

  /** A text with one newline, at its end. */
  predicate Terminated(s: string) {
    s != "" && s[|s| - 1] == '\n' && forall i :: 0 <= i < |s| - 1 ==> s[i] != '\n'
  }

  /** No line follows that would be taken for a continuation. */
  predicate NoContinuation(s: string) {
    s == "" || s[0] != ' '
  }

  /** Characters where no break begins are kept. */
  lemma {:induction false} UnfoldChunk(chunk: string, after: string)
    requires forall i :: 0 <= i < |chunk| ==> !(BREAK <= (chunk + after)[i..])
    ensures Unfolded(chunk + after) == chunk + Unfolded(after)
    decreases |chunk|
  {
    if chunk == "" {
      assert chunk + after == after;
    } else {
      var tail := chunk[1..];
      assert (chunk + after)[0..] == chunk + after && (chunk + after)[1..] == tail + after;
      forall i | 0 <= i < |tail| ensures !(BREAK <= (tail + after)[i..]) {
        assert (tail + after)[i..] == (chunk + after)[i + 1..];
      }
      UnfoldChunk(tail, after);
      assert chunk == [chunk[0]] + tail;
    }
  }

  lemma UnfoldBreak(s: string)
    ensures Unfolded(BREAK + s) == Unfolded(s)
  {
    assert (BREAK + s)[3..] == s;
  }

  /** No break begins in the part of a text that goes on one line. */
  lemma NoBreakInside(s: string, n: nat, after: string, i: nat)
    requires Terminated(s) && i < n <= |s|
    requires if n < |s| then BREAK <= after else NoContinuation(after)
    ensures !(BREAK <= (s[..n] + after)[i..])
  {
    var all := (s[..n] + after)[i..];
    assert all[0] == s[i];
    if i + 1 < n {
      assert all[1] == s[i + 1];
    }
    if i + 1 == n || i + 2 == n {
      assert after != "" ==> |all| > n - i && all[n - i] == after[0];
    }
  }

  lemma NoBreaksInside(s: string, n: nat, after: string)
    requires Terminated(s) && n <= |s|
    requires if n < |s| then BREAK <= after else NoContinuation(after)
    ensures Unfolded(s[..n] + after) == s[..n] + Unfolded(after)
  {
    forall i | 0 <= i < |s[..n]| ensures !(BREAK <= (s[..n] + after)[i..]) {
      NoBreakInside(s, n, after, i);
    }
    UnfoldChunk(s[..n], after);
  }

  /** Unfolding undoes folding, whatever follows that is no continuation. */
  lemma {:induction false} UnfoldFolded(s: string, after: string)
    requires Terminated(s) && NoContinuation(after)
    ensures Unfolded(Folded(s) + after) == s + Unfolded(after)
    decreases |s|
  {
    var n := NextLine(s);
    if n == |s| {
      assert s[..n] == s;
      NoBreaksInside(s, n, after);
    } else {
      var rest := Folded(s[n..]) + after;
      Assoc(s[..n], BREAK + Folded(s[n..]), after);
      Assoc(BREAK, Folded(s[n..]), after);
      NoBreaksInside(s, n, BREAK + rest);
      UnfoldBreak(rest);
      UnfoldFolded(s[n..], after);
      TakeDrop(s, n);
      Assoc(s[..n], s[n..], Unfolded(after));
    }
  }

  lemma TerminatedPrefix(a: string, b: string)
    requires Terminated(a) && Terminated(b) && a <= b
    ensures a == b
  {
    assert b[|a| - 1] == '\n';
  }

  /** When one folded text starts another one, that one goes on with a space: it is a continuation. */
  lemma FoldedApart(a: string, b: string)
    requires Terminated(a) && Terminated(b) && Folded(a) <= Folded(b)
    ensures a == b || (|Folded(a)| < |Folded(b)| && Folded(b)[|Folded(a)|] == ' ')
  {
    GoesOn(Folded(a), Folded(b));
    FoldedTogether(a, Folded(b)[|Folded(a)|..], b);
  }

  lemma GoesOn(s: string, t: string)
    requires s <= t
    ensures t == s + t[|s|..]
    ensures NoContinuation(t[|s|..]) || (|s| < |t| && t[|s|] == ' ')
  {
  }

  lemma FoldedTogether(a: string, rest: string, b: string)
    requires Terminated(a) && Terminated(b) && Folded(b) == Folded(a) + rest
    ensures NoContinuation(rest) ==> a == b
  {
    if NoContinuation(rest) {
      UnfoldFolded(a, rest);
      UnfoldFolded(b, "");
      NothingAfter(Folded(b));
      NothingAfter(b);
      TerminatedPrefix(a, b);
    }
  }

  /** Folding is injective. */
  lemma FoldInjective(a: string, b: string)
    requires Terminated(a) && Terminated(b)
    ensures Folded(a) == Folded(b) <==> a == b
  {
    if Folded(a) == Folded(b) {
      FoldedApart(a, b);
    }
  }

  lemma FoldedAt(s: string, i: nat)
    requires s != "" && i <= NextLine(s) && i < |s|
    ensures i < |Folded(s)| && Folded(s)[i] == if i < NextLine(s) then s[i] else '\r'
  {
  }

  lemma PrefixHolds(word: string, s: string, i: nat)
    requires word <= s && i < |word|
    ensures s[i] in word
  {
  }

  /** A folded text starts with no word that the text does not start with, and is the start of none. */
  lemma FoldedStart(s: string, word: string)
    requires Terminated(s) && |word| < MAX_LINE && '\r' !in word && '\n' !in word
    ensures word <= Folded(s) ==> word <= s
    ensures !(Folded(s) <= word)
  {
    var n := NextLine(s);
    if n < |s| {
      FoldedAt(s, n);
      if word <= Folded(s) && n < |word| {
        PrefixHolds(word, Folded(s), n);
      }
    }
  }

  // ------------------------------------------------------------- two lines it writes

  function Letters(n: nat): (r: string)
    ensures |r| == n && forall i :: 0 <= i < n ==> r[i] == 'a'
  {
    seq(n, i => 'a')
  }

  /** The first line of "COMMENT:" and many letters: the only separator is the colon. */
  lemma FirstLine(n: nat)
    requires n > MAX_LINE - 10
    ensures var s := "COMMENT:" + (Letters(n) + CRLF);
            NextLine(s) == 8 < |s| && s[..8] == "COMMENT:" && s[8..] == Letters(n) + CRLF
  {
    var s := "COMMENT:" + (Letters(n) + CRLF);
    assert s[7] == ':' && forall i :: 7 < i <= 73 ==> s[i] == 'a';
  }

  lemma CommentTerminated(n: nat)
    ensures Terminated("COMMENT:" + (Letters(n) + CRLF))
  {
  }

  lemma ShortLine(s: string)
    requires 0 < |s| < MAX_LINE
    ensures Folded(s) == s
  {
  }

  /** A folded line can start with another whole one: "COMMENT:" and a long comment without a separator. */
  lemma NoPrefixCode()
    ensures Terminated("COMMENT:" + CRLF) && Terminated("COMMENT:" + (Letters(80) + CRLF))
    ensures Folded("COMMENT:" + CRLF) <= Folded("COMMENT:" + (Letters(80) + CRLF))
  {
    var rest := Folded(Letters(80) + CRLF);
    CommentTerminated(80);
    FirstLine(80);
    ShortLine("COMMENT:" + CRLF);
    Assoc("COMMENT:", CRLF, " " + rest);
    assert BREAK + rest == CRLF + (" " + rest);
  }

  /** A folded line need not end with a line break: here one comes between the two characters of the last. */
  lemma BrokenBreak()
    ensures Terminated("COMMENT:" + (Letters(73) + CRLF))
    ensures Folded("COMMENT:" + (Letters(73) + CRLF)) == "COMMENT:" + (BREAK + ((Letters(73) + "\r") + (BREAK + "\n")))
  {
    var s := "COMMENT:" + (Letters(73) + CRLF);
    CommentTerminated(73);
    FirstLine(73);
    var rest := s[8..];
    assert forall i :: 0 <= i <= 72 ==> rest[i] == 'a';
    assert rest[73] == '\r' && rest[74] == '\n';
    assert NextLine(rest) == 74 && rest[..74] == Letters(73) + "\r" && rest[74..] == "\n";
    ShortLine("\n");
  }

  // ------------------------------------------------------------------------- UTF-8

  /** How many bytes the character has that starts with this one; 0 if none does. */
  function CharacterLength(c: char): nat {
    var n := c as int;
    if n < 128 then 1 else if 192 <= n < 224 then 2 else if 224 <= n < 240 then 3 else if 240 <= n < 248 then 4 else 0
  }

  /** A sequence of whole characters. */
  predicate Utf8(s: string) {
    s == "" ||
    (var n := CharacterLength(s[0]);
     0 < n <= |s| && (forall i :: 1 <= i < n ==> Continuation(s[i])) && Utf8(s[n..]))
  }

  /** Cutting it in two leaves whole characters exactly if the cut is not in front of a continuation. */
  lemma {:induction false} CutUtf8(s: string, n: nat)
    requires Utf8(s) && n <= |s|
    ensures Utf8(s[..n]) && Utf8(s[n..]) <==> n == |s| || !Continuation(s[n])
    decreases |s|
  {
    if n == 0 {
      assert s[n..] == s;
    } else if n < |s| {
      var m := CharacterLength(s[0]);
      if n >= m {
        CutUtf8(s[m..], n - m);
        assert s[m..][..n - m] == s[..n][m..] && s[m..][n - m..] == s[n..];
      }
    } else {
      assert s[..n] == s && s[n..] == "";
    }
  }

  /** After a byte of ASCII a character starts. */
  lemma AfterAscii(s: string, k: nat)
    requires Utf8(s) && k < |s| && s[k] as int < 128
    ensures k + 1 < |s| ==> !Continuation(s[k + 1])
  {
    CutUtf8(s, k);
    assert s[k..][1..] == s[k + 1..];
  }

  /** No character is broken: what goes on the next line and what is left are whole characters. */
  lemma WholeCharacters(s: string)
    requires Utf8(s) && s != ""
    ensures Utf8(s[..NextLine(s)]) && Utf8(s[NextLine(s)..])
  {
    var n := NextLine(s);
    CutUtf8(s, n);
    if n < |s| {
      var separator, boundary := LastOf(s, 73, Separator), LastOf(s, 74, Boundary);
      if separator > 0 {
        AfterAscii(s, separator);
      } else {
        SecondCharacter(s);
        assert boundary > 0;
        BoundaryExact(s[boundary]);
      }
    }
  }

  /** Within the first five bytes a second character starts. */
  lemma SecondCharacter(s: string)
    requires Utf8(s) && |s| >= 5
    ensures exists i :: 1 <= i <= 4 && Boundary(s[i])
    ensures forall c <- s :: c as int < 256
  {
    var m := CharacterLength(s[0]);
    assert s[m..][0] == s[m];
    assert Boundary(s[m]);
    Bytes(s);
  }

  lemma {:induction false} Bytes(s: string)
    requires Utf8(s)
    ensures forall c <- s :: c as int < 256
    decreases |s|
  {
    if s != "" {
      var m := CharacterLength(s[0]);
      Bytes(s[m..]);
      assert s == s[..m] + s[m..];
    }
  }

  /** The pieces a text is folded into. */
  function Pieces(s: string): seq<string> {
    if s == "" then [] else [s[..NextLine(s)]] + Pieces(s[NextLine(s)..])
  }

  function Joined(pieces: seq<string>): string {
    if pieces == [] then ""
    else if |pieces| == 1 then pieces[0]
    else pieces[0] + ("\r\n " + Joined(pieces[1..]))
  }

  function Concatenated(pieces: seq<string>): string {
    if pieces == [] then "" else pieces[0] + Concatenated(pieces[1..])
  }

  /**
    A folded text is made of pieces of 1 to 74 bytes, with a line break and a space between them;
    the pieces make up the text, and if that is UTF-8 each of them is.
   */
  lemma {:induction false} FoldedPieces(s: string)
    ensures Folded(s) == Joined(Pieces(s)) && Concatenated(Pieces(s)) == s
    ensures forall p <- Pieces(s) :: 1 <= |p| <= 74
    ensures Utf8(s) ==> forall p <- Pieces(s) :: Utf8(p)
    decreases |s|
  {
    if s != "" {
      var n := NextLine(s);
      FoldedPieces(s[n..]);
      TakeDrop(s, n);
      assert Pieces(s)[1..] == Pieces(s[n..]);
      if Utf8(s) {
        WholeCharacters(s);
      }
      if n == |s| {
        assert s[..n] == s && s[n..] == "";
      }
    }
  }
}
