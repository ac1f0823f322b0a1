/**
 Cell text as the table sees it: visible width with ANSI colour sequences excluded, and truncation
 to a width. The terminal width of a character is a parameter.
 */
module CellText {

  const ESC := '\U{1B}'
  const ELLIPSIS := '\U{2026}'

  /** Any table of character widths that gives a space and the ellipsis one column. */
  type WidthTable = w: char -> nat | w(' ') == 1 && w(ELLIPSIS) == 1
    witness ((c: char) => 1)

  predicate IsFinal(c: char) {
    '@' <= c <= '~'
  }

  /** Length of the rest of a CSI sequence, up to and including its final byte. */
  function CsiLength(s: string): (n: nat)
    ensures n <= |s|
  {
    if s == [] then 0 else if IsFinal(s[0]) then 1 else 1 + CsiLength(s[1..])
  }

  function VisibleWidth(w: WidthTable, text: string): nat
    decreases |text|
  {
    if text == [] then 0
    else if text[0] != ESC then w(text[0]) + VisibleWidth(w, text[1..])
    else if |text| == 1 then 0
    else if text[1] == '[' then VisibleWidth(w, text[2 + CsiLength(text[2..])..])
    else VisibleWidth(w, text[2..])
  }

  method SkipCsi(text: string, start: nat) returns (i: nat)
    requires start <= |text|
    ensures i == start + CsiLength(text[start..])
  {
    i := start;
    while i < |text|
      invariant start <= i <= |text|
      invariant i + CsiLength(text[i..]) == start + CsiLength(text[start..])
    {
      assert text[i..][0] == text[i] && text[i..][1..] == text[i + 1..];
      i := i + 1;
      if IsFinal(text[i - 1]) {
        return;
      }
    }
  }

  method MeasureVisible(w: WidthTable, text: string) returns (width: nat)
    ensures width == VisibleWidth(w, text)
  {
    width := 0;
    var i := 0;
    while i < |text|
      invariant 0 <= i <= |text| && width + VisibleWidth(w, text[i..]) == VisibleWidth(w, text)
    {
      assert text[i..][0] == text[i] && text[i..][1..] == text[i + 1..];
      if text[i] == ESC {
        if i + 1 < |text| {
          assert text[i..][1] == text[i + 1] && text[i..][2..] == text[i + 2..];
          if text[i + 1] == '[' {
            assert text[i..][2 + CsiLength(text[i + 2..])..] == text[i + 2 + CsiLength(text[i + 2..])..];
            i := SkipCsi(text, i + 2);
          } else {
            i := i + 2;
          }
        } else {
          i := i + 1;
        }
      } else {
        width := width + w(text[i]);
        i := i + 1;
      }
    }
  }

  // ----- How text is divided when it is measured -----

  /** Every escape is complete: a CSI sequence with its final byte, or an escape and the character it hides. */
  predicate Closed(text: string)
    decreases |text|
  {
    if text == [] then true
    else if text[0] != ESC then Closed(text[1..])
    else if |text| == 1 then false
    else if text[1] == '[' then Terminated(text[2..]) && Closed(text[2 + CsiLength(text[2..])..])
    else Closed(text[2..])
  }

  /** The text ends inside a CSI sequence. */
  predicate Open(text: string)
    decreases |text|
  {
    if |text| <= 1 then false
    else if text[0] != ESC then Open(text[1..])
    else if text[1] == '[' then !Terminated(text[2..]) || Open(text[2 + CsiLength(text[2..])..])
    else Open(text[2..])
  }

  /** No escape hides another escape in front of a bracket. */
  predicate Steady(text: string)
    decreases |text|
  {
    if |text| <= 1 then true
    else if text[0] != ESC then Steady(text[1..])
    else if text[1] == '[' then Steady(text[2 + CsiLength(text[2..])..])
    else (text[1] == ESC && |text| > 2 ==> text[2] != '[') && Steady(text[2..])
  }

  /** A CSI sequence has its final byte. */
  predicate Terminated(s: string) {
    CsiLength(s) > 0 && IsFinal(s[CsiLength(s) - 1])
  }

  lemma {:induction false} ClosedIsNotOpen(text: string)
    requires Closed(text)
    ensures !Open(text)
    decreases |text|
  {
    if |text| > 1 {
      if text[0] != ESC {
        ClosedIsNotOpen(text[1..]);
      } else if text[1] == '[' {
        ClosedIsNotOpen(text[2 + CsiLength(text[2..])..]);
      } else {
        ClosedIsNotOpen(text[2..]);
      }
    }
  }

  lemma {:induction false} CsiConcat(s: string, r: string)
    ensures CsiLength(s + r) == if Terminated(s) then CsiLength(s) else |s| + CsiLength(r)
    ensures Terminated(s + r) <==> Terminated(s) || Terminated(r)
  {
    if s == [] {
      assert s + r == r;
    } else if !IsFinal(s[0]) {
      assert (s + r)[1..] == s[1..] + r;
      CsiConcat(s[1..], r);
      CsiStep(s);
      CsiStep(s + r);
    }
  }

  lemma CsiStep(s: string)
    requires s != [] && !IsFinal(s[0])
    ensures CsiLength(s) == 1 + CsiLength(s[1..]) && (Terminated(s) <==> Terminated(s[1..]))
  {
    if s[1..] != [] {
      assert s[CsiLength(s) - 1] == s[1..][CsiLength(s[1..]) - 1];
    }
  }

  /** Closed text can be followed by anything without changing how either part is measured. */
  lemma {:induction false} ClosedConcat(w: WidthTable, a: string, b: string)
    requires Closed(a)
    ensures VisibleWidth(w, a + b) == VisibleWidth(w, a) + VisibleWidth(w, b)
    ensures Closed(a + b) <==> Closed(b)
    decreases |a|
  {
    if a == [] {
      assert a + b == b;
    } else if a[0] != ESC {
      assert (a + b)[1..] == a[1..] + b;
      ClosedConcat(w, a[1..], b);
    } else if a[1] == '[' {
      var n := CsiLength(a[2..]);
      assert (a + b)[2..] == a[2..] + b && (a + b)[2 + n..] == a[2 + n..] + b;
      CsiConcat(a[2..], b);
      ClosedConcat(w, a[2 + n..], b);
    } else {
      assert (a + b)[2..] == a[2..] + b;
      ClosedConcat(w, a[2..], b);
    }
  }

  lemma PlainBack(w: WidthTable, tail: string)
    requires tail != [] && tail[0] != ESC
    ensures VisibleWidth(w, tail[1..]) <= VisibleWidth(w, tail) && (!Open(tail) ==> !Open(tail[1..]))
  {
  }

  /** Text that does not end inside a sequence can be followed by ordinary text at no extra width. */
  lemma {:induction false} ShutConcat(w: WidthTable, a: string, b: string)
    requires !Open(a) && (b != [] ==> b[0] != ESC && b[0] != '[')
    ensures VisibleWidth(w, a + b) <= VisibleWidth(w, a) + VisibleWidth(w, b)
    ensures !Open(b) ==> !Open(a + b)
    decreases |a|
  {
    if a == [] {
      assert a + b == b;
    } else if a[0] != ESC {
      assert (a + b)[1..] == a[1..] + b;
      ShutConcat(w, a[1..], b);
    } else if |a| == 1 {
      if b != [] {
        assert (a + b)[2..] == b[1..];
        PlainBack(w, b);
      }
    } else if a[1] == '[' {
      BehindSequence(w, a, b);
      ShutConcat(w, a[2 + CsiLength(a[2..])..], b);
    } else {
      assert (a + b)[2..] == a[2..] + b;
      ShutConcat(w, a[2..], b);
    }
  }

  lemma {:induction false} PlainSuffix(w: WidthTable, text: string, k: nat)
    requires k <= |text| && ESC !in text
    ensures VisibleWidth(w, text[k..]) <= VisibleWidth(w, text)
    decreases k
  {
    if k > 0 {
      PlainSuffix(w, text[1..], k - 1);
      assert text[1..][k - 1..] == text[k..];
    } else {
      assert text[k..] == text;
    }
  }

  /** Any text, even one that ends inside a sequence, can be followed by text without escapes at no extra width. */
  lemma {:induction false} PlainConcat(w: WidthTable, a: string, b: string)
    requires ESC !in b && (b != [] ==> b[0] != '[')
    ensures VisibleWidth(w, a + b) <= VisibleWidth(w, a) + VisibleWidth(w, b)
    decreases |a|
  {
    if a == [] {
      assert a + b == b;
    } else if a[0] != ESC {
      assert (a + b)[1..] == a[1..] + b;
      PlainConcat(w, a[1..], b);
    } else if |a| == 1 {
      if b != [] {
        assert (a + b)[2..] == b[1..];
        PlainBack(w, b);
      }
    } else if a[1] == '[' && !Terminated(a[2..]) {
      PlainBehindOpen(w, a, b);
    } else if a[1] == '[' {
      BehindSequence(w, a, b);
      PlainConcat(w, a[2 + CsiLength(a[2..])..], b);
    } else {
      assert (a + b)[2..] == a[2..] + b;
      PlainConcat(w, a[2..], b);
    }
  }

  lemma PlainBehindOpen(w: WidthTable, a: string, b: string)
    requires ESC !in b && |a| > 1 && a[0] == ESC && a[1] == '[' && !Terminated(a[2..])
    ensures VisibleWidth(w, a + b) <= VisibleWidth(w, b)
  {
    BehindOpen(w, a, b);
    PlainSuffix(w, b, CsiLength(b));
  }

  lemma BehindOpen(w: WidthTable, a: string, b: string)
    requires |a| > 1 && a[0] == ESC && a[1] == '[' && !Terminated(a[2..])
    ensures VisibleWidth(w, a) == 0 && VisibleWidth(w, a + b) == VisibleWidth(w, b[CsiLength(b)..])
  {
    UnterminatedIsAll(a[2..]);
    assert a[..2 + CsiLength(a[2..])] == a;
    assert a[2 + CsiLength(a[2..])..] == [];
    SequenceEnds(a, b);
  }

  lemma BehindSequence(w: WidthTable, a: string, b: string)
    requires |a| > 1 && a[0] == ESC && a[1] == '[' && Terminated(a[2..])
    ensures VisibleWidth(w, a + b) == VisibleWidth(w, a[2 + CsiLength(a[2..])..] + b)
    ensures Open(a + b) <==> Open(a[2 + CsiLength(a[2..])..] + b)
  {
    var n := 2 + CsiLength(a[2..]);
    SequenceEnds(a, a[n..] + b);
    assert a + b == a[..n] + (a[n..] + b);
  }

  /** Text that ends inside a sequence swallows what follows, up to the first final byte. */
  lemma {:induction false} OpenConcat(w: WidthTable, a: string, b: string)
    requires Open(a)
    ensures VisibleWidth(w, a + b) == VisibleWidth(w, a) + VisibleWidth(w, b[CsiLength(b)..])
    decreases |a|
  {
    if a[0] != ESC {
      assert (a + b)[1..] == a[1..] + b;
      OpenConcat(w, a[1..], b);
    } else if a[1] == '[' && !Terminated(a[2..]) {
      BehindOpen(w, a, b);
    } else if a[1] == '[' {
      BehindSequence(w, a, b);
      OpenConcat(w, a[2 + CsiLength(a[2..])..], b);
    } else {
      assert (a + b)[2..] == a[2..] + b;
      OpenConcat(w, a[2..], b);
    }
  }

  lemma {:induction false} CsiPrefix(s: string, k: nat)
    requires k <= |s|
    ensures if k < CsiLength(s) then CsiLength(s[..k]) == k else CsiLength(s[..k]) == CsiLength(s)
  {
    if s != [] && k > 0 && !IsFinal(s[0]) {
      assert s[..k][1..] == s[1..][..k - 1];
      CsiPrefix(s[1..], k - 1);
    }
  }

  /** Cutting text anywhere never makes it wider. */
  lemma {:induction false} PrefixIsNoWider(w: WidthTable, text: string, k: nat)
    requires k <= |text|
    ensures VisibleWidth(w, text[..k]) <= VisibleWidth(w, text)
    decreases |text|
  {
    var cut := text[..k];
    if k > 0 && text[0] != ESC {
      assert cut[1..] == text[1..][..k - 1];
      PrefixIsNoWider(w, text[1..], k - 1);
    } else if k > 1 && text[1] != '[' {
      assert cut[2..] == text[2..][..k - 2];
      PrefixIsNoWider(w, text[2..], k - 2);
    } else if k > 1 {
      var n := 2 + CsiLength(text[2..]);
      SequenceCut(text, k);
      if n <= k {
        PrefixIsNoWider(w, text[n..], k - n);
      }
    }
  }

  /** A cut behind the first sequence leaves it, a cut inside leaves nothing else. */
  lemma SequenceCut(text: string, k: nat)
    requires 2 <= k <= |text|
    ensures var n, cut := 2 + CsiLength(text[2..]), text[..k];
      cut[2 + CsiLength(cut[2..])..] == if n <= k then text[n..][..k - n] else []
  {
    assert text[..k][2..] == text[2..][..k - 2];
    CsiPrefix(text[2..], k - 2);
  }

  // ----- Truncation -----

  /** How many characters are copied before the columns run out. */
  function Kept(w: WidthTable, text: string, room: nat): (k: nat)
    ensures k <= |text|
    decreases |text|
  {
    if room == 0 || text == [] then 0
    else if text[0] != ESC then if w(text[0]) > room then 0 else 1 + Kept(w, text[1..], room - w(text[0]))
    else if |text| > 1 && text[1] == '[' then
      var n := 2 + CsiLength(text[2..]);
      n + Kept(w, text[n..], room)
    else 1 + Kept(w, text[1..], room)
  }

  function Truncated(w: WidthTable, text: string, max: nat): string {
    if VisibleWidth(w, text) <= max then text
    else text[..Kept(w, text, if max > 0 then max - 1 else 0)] + [ELLIPSIS]
  }

  lemma KeptFrom(w: WidthTable, text: string, i: nat, room: nat)
    requires i < |text| && room > 0
    ensures Kept(w, text[i..], room) ==
      if text[i] != ESC then if w(text[i]) > room then 0 else 1 + Kept(w, text[i + 1..], room - w(text[i]))
      else if i + 1 < |text| && text[i + 1] == '[' then
        var n := 2 + CsiLength(text[i + 2..]);
        n + Kept(w, text[i + n..], room)
      else 1 + Kept(w, text[i + 1..], room)
  {
    var rest := text[i..];
    assert rest[1..] == text[i + 1..];
    if i + 1 < |text| && text[i + 1] == '[' {
      assert rest[2..] == text[i + 2..];
      var n := 2 + CsiLength(text[i + 2..]);
      assert rest[n..] == text[i + n..];
    }
  }

  /** The end of the escape at `i`: a CSI sequence whole, any other escape alone. */
  method EscapeEnd(text: string, i: nat) returns (next: nat)
    requires i < |text| && text[i] == ESC
    ensures i < next <= |text|
    ensures next == if i + 1 < |text| && text[i + 1] == '[' then i + 2 + CsiLength(text[i + 2..]) else i + 1
  {
    next := i + 1;
    if next < |text| && text[next] == '[' {
      next := SkipCsi(text, i + 2);
    }
  }

  lemma TakeOn(text: string, i: nat, j: nat)
    requires i <= j <= |text|
    ensures text[..i] + text[i..j] == text[..j]
  {
  }

  /** `out` is the text before `i`, and what is still to be kept starts there. */
  ghost predicate Copied(w: WidthTable, text: string, room: nat, width: nat, i: nat, out: string) {
    && i <= |text| && width <= room && out == text[..i]
    && i + Kept(w, text[i..], room - width) == Kept(w, text, room)
  }

  lemma CopyEscape(w: WidthTable, text: string, room: nat, width: nat, i: nat, out: string, next: nat)
    requires Copied(w, text, room, width, i, out) && width < room && i < next <= |text| && text[i] == ESC
    requires next == if i + 1 < |text| && text[i + 1] == '[' then i + 2 + CsiLength(text[i + 2..]) else i + 1
    ensures Copied(w, text, room, width, next, out + text[i..next])
  {
    KeptFrom(w, text, i, room - width);
    TakeOn(text, i, next);
  }

  lemma CopyCharacter(w: WidthTable, text: string, room: nat, width: nat, i: nat, out: string)
    requires Copied(w, text, room, width, i, out) && width < room && i < |text| && text[i] != ESC
    ensures width + w(text[i]) <= room ==> Copied(w, text, room, width + w(text[i]), i + 1, out + [text[i]])
    ensures width + w(text[i]) > room ==> i == Kept(w, text, room)
  {
    KeptFrom(w, text, i, room - width);
    TakeOn(text, i, i + 1);
  }

  /** The copying loop. */
  method CopyFitting(w: WidthTable, text: string, room: nat) returns (out: string)
    ensures out == text[..Kept(w, text, room)]
  {
    out := [];
    var width: nat, i: nat := 0, 0;
    assert text[0..] == text;
    while width < room && i < |text|
      invariant Copied(w, text, room, width, i, out)
      decreases |text| - i
    {
      if text[i] == ESC {
        var next := EscapeEnd(text, i);
        CopyEscape(w, text, room, width, i, out, next);
        out := out + text[i..next];
        i := next;
      } else {
        CopyCharacter(w, text, room, width, i, out);
        if width + w(text[i]) > room {
          return;
        }
        out := out + [text[i]];
        width := width + w(text[i]);
        i := i + 1;
      }
    }
  }

  method TruncateVisible(w: WidthTable, text: string, max: nat) returns (out: string)
    ensures out == Truncated(w, text, max)
  {
    var visible := MeasureVisible(w, text);
    if visible <= max {
      return text;
    }
    var kept := CopyFitting(w, text, if max > 0 then max - 1 else 0);
    out := kept + [ELLIPSIS];
  }

  ghost function Cut(w: WidthTable, text: string, room: nat): string {
    text[..Kept(w, text, room)] + [ELLIPSIS]
  }

  /** Cutting copies whole escapes and single characters from the front. */
  lemma CutStep(w: WidthTable, text: string, room: nat)
    requires Kept(w, text, room) > 0
    ensures Cut(w, text, room) ==
      if text[0] != ESC then [text[0]] + Cut(w, text[1..], room - w(text[0]))
      else if |text| > 1 && text[1] == '[' then
        var n := 2 + CsiLength(text[2..]);
        text[..n] + Cut(w, text[n..], room)
      else [ESC] + Cut(w, text[1..], room)
  {
    var k := Kept(w, text, room);
    if text[0] == ESC && |text| > 1 && text[1] == '[' {
      var n := 2 + CsiLength(text[2..]);
      assert text[..k] == text[..n] + text[n..][..k - n];
    } else {
      assert text[..k] == [text[0]] + text[1..][..k - 1];
    }
  }

  lemma PlainFront(w: WidthTable, c: char, tail: string)
    requires c != ESC
    ensures VisibleWidth(w, [c] + tail) == w(c) + VisibleWidth(w, tail)
    ensures Closed([c] + tail) <==> Closed(tail)
    ensures Open([c] + tail) <==> Open(tail)
  {
    assert ([c] + tail)[1..] == tail;
  }

  /** An escape in front of an ordinary character hides that character. */
  lemma EscapeFront(w: WidthTable, tail: string)
    requires tail != [] && tail[0] != ESC && tail[0] != '['
    ensures VisibleWidth(w, [ESC] + tail) <= VisibleWidth(w, tail)
    ensures Closed([ESC] + tail) <==> Closed(tail)
    ensures Open([ESC] + tail) <==> Open(tail)
  {
    assert ([ESC] + tail)[2..] == tail[1..];
  }

  /** An escape that hides another one. */
  lemma PairFront(w: WidthTable, tail: string)
    ensures VisibleWidth(w, [ESC] + ([ESC] + tail)) == VisibleWidth(w, tail)
    ensures Closed([ESC] + ([ESC] + tail)) <==> Closed(tail)
    ensures Open([ESC] + ([ESC] + tail)) <==> Open(tail)
  {
    assert ([ESC] + ([ESC] + tail))[2..] == tail;
  }

  /** Where the first sequence of `text`, put in front of `tail`, ends. */
  lemma SequenceEnds(text: string, tail: string)
    requires |text| > 1 && text[0] == ESC && text[1] == '['
    ensures var front := text[..2 + CsiLength(text[2..])] + tail;
      && |front| > 1 && front[0] == ESC && front[1] == '['
      && (if Terminated(text[2..]) then Terminated(front[2..]) && front[2 + CsiLength(front[2..])..] == tail
          else
            && (Terminated(front[2..]) <==> Terminated(tail))
            && front[2 + CsiLength(front[2..])..] == tail[CsiLength(tail)..])
  {
    var n := CsiLength(text[2..]);
    var front := text[..2 + n] + tail;
    assert front[2..] == text[2..][..n] + tail;
    ParamsEnd(text[2..], tail);
    DropOn(front, 2, CsiLength(front[2..]));
  }

  lemma DropOn(s: string, a: nat, b: nat)
    requires a + b <= |s|
    ensures s[a..][b..] == s[a + b..]
  {
  }

  lemma ParamsEnd(params: string, tail: string)
    ensures var both := params[..CsiLength(params)] + tail;
      if Terminated(params) then Terminated(both) && both[CsiLength(both)..] == tail
      else (Terminated(both) <==> Terminated(tail)) && both[CsiLength(both)..] == tail[CsiLength(tail)..]
  {
    var n := CsiLength(params);
    CsiPrefix(params, n);
    CsiConcat(params[..n], tail);
    if !Terminated(params) {
      UnterminatedIsAll(params);
      assert params[..n] == params;
    }
  }

  /** Behind a sequence all of the other text shows, behind an unterminated one what it does not swallow. */
  lemma CsiFront(w: WidthTable, text: string, tail: string)
    requires |text| > 1 && text[0] == ESC && text[1] == '['
    ensures var front := text[..2 + CsiLength(text[2..])] + tail;
      if Terminated(text[2..]) then
        && VisibleWidth(w, front) == VisibleWidth(w, tail)
        && (Closed(front) <==> Closed(tail)) && (Open(front) <==> Open(tail))
      else
        && VisibleWidth(w, front) == VisibleWidth(w, tail[CsiLength(tail)..])
        && (Open(front) <==> !Terminated(tail) || Open(tail[CsiLength(tail)..]))
  {
    SequenceEnds(text, tail);
  }

  lemma {:induction false} UnterminatedIsAll(s: string)
    requires !Terminated(s)
    ensures CsiLength(s) == |s|
  {
    if s != [] && !IsFinal(s[0]) {
      CsiStep(s);
      UnterminatedIsAll(s[1..]);
    }
  }

  /** What cutting does to the first escape. */
  lemma CutPair(w: WidthTable, text: string, room: nat)
    requires |text| > 1 && text[0] == ESC && text[1] == ESC && room > 0 && (|text| > 2 ==> text[2] != '[')
    ensures Cut(w, text, room) == [ESC] + ([ESC] + Cut(w, text[2..], room))
  {
    CutStep(w, text, room);
    CutStep(w, text[1..], room);
    assert text[1..][1..] == text[2..];
  }

  lemma CutStart(w: WidthTable, text: string, room: nat)
    requires text != [] && text[0] != ESC
    ensures Cut(w, text, room)[0] in {text[0], ELLIPSIS}
  {
  }

  /**
   With `room` columns left, copying goes past an escape that hides another one in front of a bracket.
   The hidden one is then copied as the start of a sequence, and measured as text.
   */
  predicate Crosses(w: WidthTable, text: string, room: nat)
    decreases |text|
  {
    if room == 0 || |text| <= 1 then false
    else if text[0] != ESC then w(text[0]) <= room && Crosses(w, text[1..], room - w(text[0]))
    else if text[1] == '[' then Crosses(w, text[2 + CsiLength(text[2..])..], room)
    else if text[1] == ESC then (|text| > 2 && text[2] == '[') || Crosses(w, text[2..], room)
    else w(text[1]) <= room && Crosses(w, text[2..], room - w(text[1]))
  }

  /** Text without such a pair is never crossed, whatever the widths and the room. */
  lemma {:induction false} SteadyNeverCrosses(w: WidthTable, text: string, room: nat)
    requires Steady(text)
    ensures !Crosses(w, text, room)
    decreases |text|
  {
    if room > 0 && |text| > 1 {
      if text[0] != ESC {
        if w(text[0]) <= room {
          SteadyNeverCrosses(w, text[1..], room - w(text[0]));
        }
      } else if text[1] == '[' {
        SteadyNeverCrosses(w, text[2 + CsiLength(text[2..])..], room);
      } else if text[1] == ESC {
        SteadyNeverCrosses(w, text[2..], room);
      } else if w(text[1]) <= room {
        SteadyNeverCrosses(w, text[2..], room - w(text[1]));
      }
    }
  }

  lemma CrossesBehindEscape(w: WidthTable, text: string, room: nat)
    requires |text| > 1 && text[0] == ESC && text[1] != ESC && text[1] != '['
    ensures Crosses(w, text, room) <==> Crosses(w, text[1..], room)
  {
    assert text[1..][1..] == text[2..];
  }

  /** Truncated text stays within its columns, unless its copying crosses such a pair. */
  lemma {:induction false} CutFits(w: WidthTable, text: string, room: nat)
    requires !Crosses(w, text, room)
    ensures VisibleWidth(w, Cut(w, text, room)) <= room + 1
    decreases |text|
  {
    if Kept(w, text, room) == 0 {
      assert Cut(w, text, room) == [ELLIPSIS];
      OneCharacter(w, ELLIPSIS);
    } else {
      CutStep(w, text, room);
      if text[0] != ESC {
        CutFits(w, text[1..], room - w(text[0]));
        PlainFront(w, text[0], Cut(w, text[1..], room - w(text[0])));
      } else if |text| == 1 {
        assert Cut(w, text, room) == [ESC, ELLIPSIS];
      } else if text[1] == '[' {
        CutSequenceFits(w, text, room);
      } else if text[1] == ESC {
        CutPair(w, text, room);
        CutFits(w, text[2..], room);
        PairFront(w, Cut(w, text[2..], room));
      } else {
        CrossesBehindEscape(w, text, room);
        CutFits(w, text[1..], room);
        CutStart(w, text[1..], room);
        EscapeFront(w, Cut(w, text[1..], room));
      }
    }
  }

  lemma {:induction false} CutSequenceFits(w: WidthTable, text: string, room: nat)
    requires !Crosses(w, text, room) && |text| > 1 && text[0] == ESC && text[1] == '[' && room > 0
    ensures VisibleWidth(w, Cut(w, text, room)) <= room + 1
    decreases |text|, 0
  {
    var n := 2 + CsiLength(text[2..]);
    CutStep(w, text, room);
    CsiFront(w, text, Cut(w, text[n..], room));
    if Terminated(text[2..]) {
      CutFits(w, text[n..], room);
    } else {
      UnterminatedIsAll(text[2..]);
      assert Cut(w, text[n..], room) == [ELLIPSIS] && [ELLIPSIS][1..] == [];
    }
  }

  /** Truncation opens no sequence and leaves complete escapes complete. */
  lemma {:induction false} CutStaysWhole(w: WidthTable, text: string, room: nat)
    requires !Crosses(w, text, room)
    ensures Closed(text) ==> Closed(Cut(w, text, room))
    ensures !Open(text) ==> !Open(Cut(w, text, room))
    decreases |text|
  {
    if Kept(w, text, room) == 0 {
      assert Cut(w, text, room) == [ELLIPSIS];
      OneCharacter(w, ELLIPSIS);
    } else {
      CutStep(w, text, room);
      if text[0] != ESC {
        CutStaysWhole(w, text[1..], room - w(text[0]));
        PlainFront(w, text[0], Cut(w, text[1..], room - w(text[0])));
      } else if |text| == 1 {
        assert Cut(w, text, room) == [ESC, ELLIPSIS] && [ESC, ELLIPSIS][2..] == [];
      } else if text[1] == '[' {
        var n := 2 + CsiLength(text[2..]);
        CutStaysWhole(w, text[n..], room);
        CsiFront(w, text, Cut(w, text[n..], room));
      } else if text[1] == ESC {
        CutPair(w, text, room);
        CutStaysWhole(w, text[2..], room);
        PairFront(w, Cut(w, text[2..], room));
      } else {
        CrossesBehindEscape(w, text, room);
        assert text[1..][1..] == text[2..];
        CutStaysWhole(w, text[1..], room);
        CutStart(w, text[1..], room);
        EscapeFront(w, Cut(w, text[1..], room));
      }
    }
  }

  /** The text fits, or is cut without crossing. */
  predicate Truncates(w: WidthTable, text: string, max: nat) {
    VisibleWidth(w, text) <= max || (max >= 1 && !Crosses(w, text, max - 1))
  }

  /** Every text that fits, or is cut without crossing, ends within its columns; so does none without a column. */
  lemma TruncatedFits(w: WidthTable, text: string, max: nat)
    ensures Truncates(w, text, max) ==> VisibleWidth(w, Truncated(w, text, max)) <= max
    ensures max == 0 && !Truncates(w, text, max) ==> VisibleWidth(w, Truncated(w, text, max)) > max
  {
    if VisibleWidth(w, text) > max {
      if max == 0 {
        assert Truncated(w, text, max) == [ELLIPSIS];
        OneCharacter(w, ELLIPSIS);
      } else if !Crosses(w, text, max - 1) {
        CutFits(w, text, max - 1);
      }
    }
  }

  lemma TruncatedStaysWhole(w: WidthTable, text: string, max: nat)
    requires Truncates(w, text, max) || max == 0
    ensures Closed(text) ==> Closed(Truncated(w, text, max))
    ensures !Open(text) ==> !Open(Truncated(w, text, max))
  {
    if VisibleWidth(w, text) > max {
      CutStaysWhole(w, text, if max > 0 then max - 1 else 0);
    }
  }

  // ----- Where the bound fails -----

  /** Columns as terminals have them: two at most, and one for every byte that can end a sequence. */
  ghost predicate Narrow(w: WidthTable) {
    (forall c :: w(c) <= 2) && forall c :: IsFinal(c) ==> w(c) == 1
  }

  /** No escape hides a character of some width, and no hidden sequence has an escape inside. */
  predicate Regular(w: WidthTable, text: string)
    decreases |text|
  {
    if |text| <= 1 then true
    else if text[0] != ESC then Regular(w, text[1..])
    else if text[1] == '[' then Regular(w, text[2 + CsiLength(text[2..])..])
    else if text[1] != ESC then w(text[1]) == 0 && Regular(w, text[2..])
    else if |text| > 2 && text[2] == '[' then
      ESC !in text[2..3 + CsiLength(text[3..])] && Regular(w, text[3 + CsiLength(text[3..])..])
    else Regular(w, text[2..])
  }

  lemma {:induction false} PlainIsClosed(w: WidthTable, s: string)
    requires ESC !in s
    ensures Closed(s) && (s != [] ==> VisibleWidth(w, s) >= w(s[|s| - 1]))
  {
    if s != [] {
      PlainIsClosed(w, s[1..]);
    }
  }

  /** A hidden sequence, and how far it goes. */
  predicate HidesSequence(text: string) {
    |text| > 2 && text[0] == ESC && text[1] == ESC && text[2] == '['
  }

  /** What a hidden sequence shows: the bracket, its parameters and its final byte. */
  function HiddenText(text: string): string
    requires HidesSequence(text)
  {
    text[2..3 + CsiLength(text[3..])]
  }

  lemma HiddenFront(w: WidthTable, text: string, tail: string)
    requires HidesSequence(text) && ESC !in HiddenText(text)
    ensures VisibleWidth(w, [ESC] + ([ESC] + (HiddenText(text) + tail))) ==
      VisibleWidth(w, HiddenText(text)) + VisibleWidth(w, tail)
  {
    PairFront(w, HiddenText(text) + tail);
    PlainIsClosed(w, HiddenText(text));
    ClosedConcat(w, HiddenText(text), tail);
  }

  lemma HiddenIsWide(w: WidthTable, text: string)
    requires Narrow(w) && HidesSequence(text) && ESC !in HiddenText(text) && Terminated(text[3..])
    ensures VisibleWidth(w, HiddenText(text)) >= 2
  {
    var s := HiddenText(text);
    assert s == ['['] + s[1..] && IsFinal(s[|s| - 1]) && s[1..] != [];
    PlainFront(w, '[', s[1..]);
    PlainIsClosed(w, s[1..]);
    assert IsFinal('[');
  }

  lemma PairThenTail(sequence: string, tail: string)
    requires sequence != [] && sequence[0] == ESC
    ensures [ESC] + (sequence + tail) == [ESC] + ([ESC] + (sequence[1..] + tail))
  {
  }

  /** Cutting copies a hidden sequence whole. */
  lemma CutHidden(w: WidthTable, text: string, room: nat)
    requires HidesSequence(text) && room > 0
    ensures Cut(w, text, room) == [ESC] + ([ESC] + (HiddenText(text) + Cut(w, text[3 + CsiLength(text[3..])..], room)))
  {
    var inner := text[1..];
    var n := 2 + CsiLength(inner[2..]);
    assert inner[2..] == text[3..] && inner[n..] == text[1 + n..] && inner[1..n] == HiddenText(text);
    CutStep(w, text, room);
    CutStep(w, inner, room);
    PairThenTail(inner[..n], Cut(w, inner[n..], room));
    assert inner[..n][1..] == inner[1..n];
  }

  lemma HiddenParts(w: WidthTable, text: string)
    requires HidesSequence(text) && ESC !in HiddenText(text)
    ensures VisibleWidth(w, text) ==
      VisibleWidth(w, HiddenText(text)) + VisibleWidth(w, text[3 + CsiLength(text[3..])..])
  {
    var rest := text[3 + CsiLength(text[3..])..];
    HiddenFront(w, text, rest);
    HiddenJoins(text);
  }

  lemma HiddenJoins(text: string)
    requires HidesSequence(text)
    ensures [ESC] + ([ESC] + (HiddenText(text) + text[3 + CsiLength(text[3..])..])) == text
  {
    SplitAt(text[2..], 1 + CsiLength(text[3..]));
    DropOn(text, 2, 1 + CsiLength(text[3..]));
    assert HiddenText(text) == text[2..][..1 + CsiLength(text[3..])];
  }

  /** Cutting before a character hidden by an escape, one without width. */
  lemma CutHiddenCharacter(w: WidthTable, text: string, room: nat)
    requires |text| > 1 && text[0] == ESC && text[1] != ESC && text[1] != '[' && w(text[1]) == 0 && room > 0
    ensures VisibleWidth(w, Cut(w, text, room)) == VisibleWidth(w, Cut(w, text[2..], room))
  {
    CutStep(w, text, room);
    CutStep(w, text[1..], room);
    assert text[1..][1..] == text[2..];
    assert Cut(w, text, room)[2..] == Cut(w, text[2..], room);
  }

  lemma CutUnterminated(w: WidthTable, text: string, room: nat)
    requires HidesSequence(text) && !Terminated(text[3..]) && room > 0
    ensures VisibleWidth(w, Cut(w, text, room)) >= VisibleWidth(w, text)
  {
    UnterminatedIsAll(text[3..]);
    CutHidden(w, text, room);
    assert text[|text|..] == [] && Cut(w, [], room) == [ELLIPSIS];
    assert Cut(w, text, room) == text + [ELLIPSIS];
    PrefixIsNoWider(w, text + [ELLIPSIS], |text|);
    assert (text + [ELLIPSIS])[..|text|] == text;
  }

  /** What is left of a text by a cut fills the room, or is as wide as the text. */
  ghost predicate Fills(w: WidthTable, text: string, room: nat) {
    VisibleWidth(w, Cut(w, text, room)) >= room || VisibleWidth(w, Cut(w, text, room)) >= VisibleWidth(w, text)
  }

  lemma {:induction false} CutFills(w: WidthTable, text: string, room: nat)
    requires Narrow(w) && Regular(w, text)
    ensures Fills(w, text, room)
    decreases |text|
  {
    if Kept(w, text, room) == 0 {
      assert Cut(w, text, room) == [ELLIPSIS];
      OneCharacter(w, ELLIPSIS);
    } else if text[0] != ESC {
      CutStep(w, text, room);
      CutFills(w, text[1..], room - w(text[0]));
      PlainFront(w, text[0], Cut(w, text[1..], room - w(text[0])));
    } else if |text| > 1 {
      EscapeFills(w, text, room);
    }
  }

  lemma {:induction false} EscapeFills(w: WidthTable, text: string, room: nat)
    requires Narrow(w) && Regular(w, text) && |text| > 1 && text[0] == ESC && room > 0
    ensures Fills(w, text, room)
    decreases |text|, 0
  {
    if text[1] == '[' {
      var n := 2 + CsiLength(text[2..]);
      CutStep(w, text, room);
      CsiFront(w, text, Cut(w, text[n..], room));
      if Terminated(text[2..]) {
        CutFills(w, text[n..], room);
      } else {
        UnterminatedIsAll(text[2..]);
      }
    } else if text[1] != ESC {
      CutHiddenCharacter(w, text, room);
      CutFills(w, text[2..], room);
    } else if !HidesSequence(text) {
      CutPair(w, text, room);
      CutFills(w, text[2..], room);
      PairFront(w, Cut(w, text[2..], room));
    } else if !Terminated(text[3..]) {
      CutUnterminated(w, text, room);
    } else {
      var rest := text[3 + CsiLength(text[3..])..];
      CutFills(w, rest, room);
      CutHidden(w, text, room);
      HiddenFront(w, text, Cut(w, rest, room));
      HiddenParts(w, text);
    }
  }

  lemma OverflowsAtPair(w: WidthTable, text: string, room: nat)
    requires Narrow(w) && Regular(w, text) && HidesSequence(text) && room > 0 && VisibleWidth(w, text) > room + 1
    ensures VisibleWidth(w, Cut(w, text, room)) > room + 1
  {
    if Terminated(text[3..]) {
      var rest := text[3 + CsiLength(text[3..])..];
      CutFills(w, rest, room);
      CutHidden(w, text, room);
      HiddenFront(w, text, Cut(w, rest, room));
      HiddenParts(w, text);
      HiddenIsWide(w, text);
    } else {
      CutUnterminated(w, text, room);
    }
  }

  /** A cut that crosses a pair is too wide. */
  lemma {:induction false} CrossingOverflows(w: WidthTable, text: string, room: nat)
    requires Narrow(w) && Regular(w, text) && Crosses(w, text, room) && VisibleWidth(w, text) > room + 1
    ensures VisibleWidth(w, Cut(w, text, room)) > room + 1
    decreases |text|
  {
    if text[0] != ESC {
      CutStep(w, text, room);
      CrossingOverflows(w, text[1..], room - w(text[0]));
      PlainFront(w, text[0], Cut(w, text[1..], room - w(text[0])));
    } else if text[1] == '[' {
      CrossingBehindSequence(w, text, room);
    } else if HidesSequence(text) {
      OverflowsAtPair(w, text, room);
    } else if text[1] == ESC {
      CutPair(w, text, room);
      CrossingOverflows(w, text[2..], room);
      PairFront(w, Cut(w, text[2..], room));
    } else {
      CutHiddenCharacter(w, text, room);
      CrossingOverflows(w, text[2..], room);
    }
  }

  lemma {:induction false} CrossingBehindSequence(w: WidthTable, text: string, room: nat)
    requires Narrow(w) && Regular(w, text) && Crosses(w, text, room) && VisibleWidth(w, text) > room + 1
    requires text[0] == ESC && text[1] == '['
    ensures VisibleWidth(w, Cut(w, text, room)) > room + 1
    decreases |text|, 0
  {
    var n := 2 + CsiLength(text[2..]);
    if !Terminated(text[2..]) {
      UnterminatedIsAll(text[2..]);
    }
    CutStep(w, text, room);
    CsiFront(w, text, Cut(w, text[n..], room));
    CrossingOverflows(w, text[n..], room);
  }

  /** With terminal widths, regular text ends within its columns exactly when it fits or is cut without crossing. */
  lemma TruncatedFitsIff(w: WidthTable, text: string, max: nat)
    requires Narrow(w) && Regular(w, text)
    ensures VisibleWidth(w, Truncated(w, text, max)) <= max <==> Truncates(w, text, max)
  {
    TruncatedFits(w, text, max);
    if max > 0 && !Truncates(w, text, max) {
      CrossingOverflows(w, text, max - 1);
    }
  }

  /** With every character one column wide: six characters, two of them visible, truncated to two columns show four. */
  lemma HiddenEscapeOverflows(w: WidthTable)
    requires w('[') == 1 && w('m') == 1 && w('a') == 1 && w('b') == 1
    ensures var text := [ESC, ESC, '[', 'm', 'a', 'b'];
      VisibleWidth(w, Truncated(w, text, 2)) == 4
  {
    var text := [ESC, ESC, '[', 'm', 'a', 'b'];
    assert text[1..] == [ESC, '[', 'm', 'a', 'b'] && text[1..][2..] == ['m', 'a', 'b'];
    assert CsiLength(['m', 'a', 'b']) == 1 && text[1..][3..] == ['a', 'b'];
    assert Kept(w, ['a', 'b'], 1) == 1 by {
      assert ['a', 'b'][1..] == ['b'];
    }
    assert Kept(w, text, 1) == 5;
    var shown := ['[', 'm', 'a', ELLIPSIS];
    assert text[..5] + [ELLIPSIS] == [ESC] + ([ESC] + shown);
    PairFront(w, shown);
    PairFront(w, ['[', 'm', 'a', 'b']);
    assert text == [ESC] + ([ESC] + ['[', 'm', 'a', 'b']);
    FourCharacters(w, '[', 'm', 'a', ELLIPSIS);
    FourCharacters(w, '[', 'm', 'a', 'b');
  }

  /**
   A wide character behind an escape is copied at a width it is not measured at. The two columns it wastes
   make up for the pair that was crossed, so crossing alone does not decide about text that is not regular.
   */
  lemma HiddenCharacterMakesUp(w: WidthTable, wide: char)
    requires wide != ESC && wide != '[' && w(wide) == 2
    requires w('[') == 1 && w('m') == 1 && w('a') == 1 && w('b') == 1
    ensures var text := [ESC, ESC, '[', 'm'] + ([ESC, wide] + ['a', 'b']);
      !Regular(w, text) && !Truncates(w, text, 3) && VisibleWidth(w, Truncated(w, text, 3)) == 3
  {
    var tail := [ESC, wide] + ['a', 'b'];
    var text := [ESC, ESC, '[', 'm'] + tail;
    HiddenTail(w, wide, ['a', 'b']);
    HiddenTail(w, wide, [ELLIPSIS]);
    PlainFront(w, 'a', ['b']);
    assert ['a', 'b'] == ['a'] + ['b'];
    OneCharacter(w, 'b');
    OneCharacter(w, ELLIPSIS);
    KeptWide(w, wide);
    KeptBehindPair(w, tail, 2);
    assert tail[..2] == [ESC, wide];
    assert text[..6] + [ELLIPSIS] == [ESC, ESC, '[', 'm'] + ([ESC, wide] + [ELLIPSIS]);
  }

  lemma KeptWide(w: WidthTable, wide: char)
    requires wide != ESC && wide != '[' && w(wide) == 2
    ensures Kept(w, [ESC, wide] + ['a', 'b'], 2) == 2 && !Regular(w, [ESC, wide] + ['a', 'b'])
  {
    var tail := [ESC, wide] + ['a', 'b'];
    assert tail[1..] == [wide, 'a', 'b'];
    assert Kept(w, tail[1..], 2) == 1;
  }

  lemma KeptBehindPair(w: WidthTable, tail: string, room: nat)
    requires room > 0
    ensures var text := [ESC, ESC, '[', 'm'] + tail;
      && Kept(w, text, room) == 4 + Kept(w, tail, room)
      && Crosses(w, text, room) && (Regular(w, text) ==> Regular(w, tail))
  {
    var text := [ESC, ESC, '[', 'm'] + tail;
    assert text[3..] == text[1..][2..] == ['m'] + tail;
    assert CsiLength(['m'] + tail) == 1;
    assert text[4..] == text[1..][3..] == tail;
  }

  lemma HiddenTail(w: WidthTable, c: char, tail: string)
    requires c != ESC && c != '['
    ensures VisibleWidth(w, [ESC, ESC, '[', 'm'] + ([ESC, c] + tail)) == w('[') + w('m') + VisibleWidth(w, tail)
  {
    var hidden := [ESC, c] + tail;
    assert hidden[2..] == tail;
    PlainFront(w, 'm', hidden);
    PlainFront(w, '[', ['m'] + hidden);
    PairFront(w, ['['] + (['m'] + hidden));
    assert [ESC, ESC, '[', 'm'] + hidden == [ESC] + ([ESC] + (['['] + (['m'] + hidden)));
  }

  lemma FourCharacters(w: WidthTable, a: char, b: char, c: char, d: char)
    requires a != ESC && b != ESC && c != ESC && d != ESC
    ensures VisibleWidth(w, [a, b, c, d]) == w(a) + w(b) + w(c) + w(d)
  {
    OneCharacter(w, d);
    PlainFront(w, c, [d]);
    PlainFront(w, b, [c, d]);
    PlainFront(w, a, [b, c, d]);
    assert [c, d] == [c] + [d] && [b, c, d] == [b] + [c, d] && [a, b, c, d] == [a] + [b, c, d];
  }

  // ----- Truncation keeps as much as fits -----

  ghost predicate StopsRight(w: WidthTable, text: string, room: nat, k: nat)
    requires k <= |text|
  {
    var used := VisibleWidth(w, text[..k]);
    used <= room && (k == |text| || used == room || (text[k] != ESC && used + w(text[k]) > room))
  }

  lemma StopsAfter(w: WidthTable, front: string, rest: string, room: nat, k: nat)
    requires Closed(front) && VisibleWidth(w, front) <= room && k <= |rest|
    requires StopsRight(w, rest, room - VisibleWidth(w, front), k)
    ensures StopsRight(w, front + rest, room, |front| + k)
  {
    assert (front + rest)[..|front| + k] == front + rest[..k];
    ClosedConcat(w, front, rest[..k]);
  }

  lemma OneCharacter(w: WidthTable, c: char)
    requires c != ESC
    ensures Closed([c]) && !Open([c]) && VisibleWidth(w, [c]) == w(c)
  {
    assert [c] == [c] + [];
    PlainFront(w, c, []);
  }

  lemma SequenceIsClosed(w: WidthTable, text: string)
    requires |text| > 1 && text[0] == ESC && text[1] == '[' && Terminated(text[2..])
    ensures var front := text[..2 + CsiLength(text[2..])];
      Closed(front) && VisibleWidth(w, front) == 0
  {
    var front := text[..2 + CsiLength(text[2..])];
    CsiFront(w, text, []);
    assert front + [] == front;
  }

  lemma StopsAtEnd(w: WidthTable, text: string, room: nat)
    requires |text| > 1 && text[0] == ESC && text[1] == '[' && !Terminated(text[2..]) && room > 0
    ensures StopsRight(w, text, room, Kept(w, text, room))
  {
    UnterminatedIsAll(text[2..]);
    assert text[|text|..] == [] && text[..|text|] == text;
  }

  lemma StopsBehindCharacter(w: WidthTable, text: string, room: nat)
    requires text != [] && text[0] != ESC && 0 < room && w(text[0]) <= room
    requires StopsRight(w, text[1..], room - w(text[0]), Kept(w, text[1..], room - w(text[0])))
    ensures StopsRight(w, text, room, Kept(w, text, room))
  {
    OneCharacter(w, text[0]);
    StopsAfter(w, [text[0]], text[1..], room, Kept(w, text[1..], room - w(text[0])));
    assert text == [text[0]] + text[1..];
  }

  lemma StopsBehindSequence(w: WidthTable, text: string, room: nat)
    requires |text| > 1 && text[0] == ESC && text[1] == '[' && Terminated(text[2..]) && room > 0
    requires var rest := text[2 + CsiLength(text[2..])..]; StopsRight(w, rest, room, Kept(w, rest, room))
    ensures StopsRight(w, text, room, Kept(w, text, room))
  {
    var n := 2 + CsiLength(text[2..]);
    var front, rest := text[..n], text[n..];
    var k := Kept(w, rest, room);
    SequenceIsClosed(w, text);
    assert Kept(w, text, room) == |front| + k;
    SplitAt(text, n);
    StopsAfter(w, front, rest, room, k);
  }

  lemma SplitAt(text: string, n: nat)
    requires n <= |text|
    ensures text[..n] + text[n..] == text
  {
  }

  lemma StopsBehindPair(w: WidthTable, text: string, room: nat)
    requires |text| > 1 && text[0] == ESC && text[1] != '[' && !HidesSequence(text) && room > 0
    requires text[1] == ESC || w(text[1]) == 0
    requires StopsRight(w, text[2..], room, Kept(w, text[2..], room))
    ensures StopsRight(w, text, room, Kept(w, text, room))
  {
    var front := text[..2];
    assert text[1..][1..] == text[2..];
    assert front[2..] == [] && VisibleWidth(w, front[2..]) == 0;
    SplitAt(text, 2);
    StopsAfter(w, front, text[2..], room, Kept(w, text[2..], room));
  }

  /** Truncation of regular text that crosses nothing stops only when no further character fits. */
  lemma {:induction false} CutIsMaximal(w: WidthTable, text: string, room: nat)
    requires Regular(w, text) && !Crosses(w, text, room)
    ensures StopsRight(w, text, room, Kept(w, text, room))
    decreases |text|
  {
    if Kept(w, text, room) == 0 {
      assert text[..0] == [];
    } else if text[0] != ESC {
      CutIsMaximal(w, text[1..], room - w(text[0]));
      StopsBehindCharacter(w, text, room);
    } else if |text| == 1 {
      assert text[..1] == text;
    } else if text[1] != '[' {
      CutIsMaximal(w, text[2..], room);
      StopsBehindPair(w, text, room);
    } else if !Terminated(text[2..]) {
      StopsAtEnd(w, text, room);
    } else {
      CutIsMaximal(w, text[2 + CsiLength(text[2..])..], room);
      StopsBehindSequence(w, text, room);
    }
  }

  /** With terminal widths, truncation of regular text that is too wide stops right exactly when it crosses nothing. */
  lemma CutIsMaximalIff(w: WidthTable, text: string, room: nat)
    requires Narrow(w) && Regular(w, text) && VisibleWidth(w, text) > room + 1
    ensures StopsRight(w, text, room, Kept(w, text, room)) <==> !Crosses(w, text, room)
  {
    if Crosses(w, text, room) {
      CrossingOverflows(w, text, room);
      OneCharacter(w, ELLIPSIS);
      PlainConcat(w, text[..Kept(w, text, room)], [ELLIPSIS]);
    } else {
      CutIsMaximal(w, text, room);
    }
  }

  /** An escape before an ordinary character is copied as if that character showed: a column is wasted. */
  lemma HiddenCharacterWastesRoom(w: WidthTable)
    requires w('a') == 1 && w('b') == 1
    ensures var text := [ESC, 'a', 'b']; !StopsRight(w, text, 1, Kept(w, text, 1))
  {
    var text := [ESC, 'a', 'b'];
    assert text[1..] == ['a', 'b'] && ['a', 'b'][1..] == ['b'];
    assert Kept(w, ['a', 'b'], 1) == 1 + Kept(w, ['b'], 0) == 1;
    assert Kept(w, text, 1) == 2;
    assert text[..2] == [ESC, 'a'] && [ESC, 'a'][2..] == [];
    assert VisibleWidth(w, text[..2]) == 0;
  }

  /** An unterminated sequence breaks the measure: it swallows the opening of the next one. */
  lemma UnterminatedSequenceWidens(w: WidthTable)
    requires w('3') == 1 && w('m') == 1
    ensures var a, b := [ESC, '['], [ESC, '[', '3', 'm'];
      VisibleWidth(w, a) + VisibleWidth(w, b) == 0 && VisibleWidth(w, a + b) == 2
  {
    var a, b := [ESC, '['], [ESC, '[', '3', 'm'];
    assert a[2..] == [] && b[2..] == ['3', 'm'] && ['3', 'm'][1..] == ['m'];
    assert CsiLength(['m']) == 1 && CsiLength(b[2..]) == 2 && b[4..] == [];
    assert (a + b)[2..] == b && CsiLength(b) == 2 by {
      assert b[1..][0] == '[';
    }
    assert (a + b)[4..] == ['3', 'm'] && ['m'][1..] == [];
    assert VisibleWidth(w, ['m']) == 1 && VisibleWidth(w, ['3', 'm']) == 2;
  }

  // ----- Sanitizing -----

  function SanitizeChar(c: char): char {
    if c == '\t' || c == '\n' || c == '\r' then ' ' else c
  }

  function Sanitize(text: string): (r: string)
    ensures |r| == |text| && forall i :: 0 <= i < |r| ==> r[i] == SanitizeChar(text[i])
  {
    seq(|text|, i requires 0 <= i < |text| => SanitizeChar(text[i]))
  }

  lemma {:induction false} CsiSanitized(s: string)
    ensures CsiLength(Sanitize(s)) == CsiLength(s) && (Terminated(Sanitize(s)) <==> Terminated(s))
  {
    if s != [] {
      CsiSanitized(s[1..]);
      assert Sanitize(s)[1..] == Sanitize(s[1..]);
    }
  }

  lemma {:induction false} SanitizedKeepsEscapes(text: string)
    ensures Closed(Sanitize(text)) <==> Closed(text)
    ensures Open(Sanitize(text)) <==> Open(text)
    ensures Steady(Sanitize(text)) <==> Steady(text)
    decreases |text|
  {
    var clean := Sanitize(text);
    if |text| > 1 {
      if text[0] != ESC {
        SanitizedKeepsEscapes(text[1..]);
        assert clean[1..] == Sanitize(text[1..]);
      } else if text[1] == '[' {
        var n := CsiLength(text[2..]);
        CsiSanitized(text[2..]);
        SanitizedKeepsEscapes(text[2 + n..]);
        assert clean[2..] == Sanitize(text[2..]) && clean[2 + n..] == Sanitize(text[2 + n..]);
      } else {
        SanitizedKeepsEscapes(text[2..]);
        assert clean[2..] == Sanitize(text[2..]);
      }
    }
  }
}
