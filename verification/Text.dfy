/** The parts of Go's strings package that decide keys and orders, over ASCII text. */
module Text {

  predicate IsSpace(c: char) {
    c == ' ' || c == '\t' || c == '\n' || c == '\r' || c == '\U{000b}' || c == '\U{000c}'
  }

  predicate Blank(text: string) {
    forall i :: 0 <= i < |text| ==> IsSpace(text[i])
  }

  function TrimLeft(text: string): string {
    if text != "" && IsSpace(text[0]) then TrimLeft(text[1..]) else text
  }

  function TrimRight(text: string): string {
    if text != "" && IsSpace(text[|text| - 1]) then TrimRight(text[..|text| - 1]) else text
  }

  function Trim(text: string): string {
    TrimRight(TrimLeft(text))
  }

  lemma SpacesAre(c: char)
    ensures IsSpace(c) <==> c as int == 32 || 9 <= c as int <= 13
  {
  }

  /** Trimming takes the spaces off both ends, and nothing else. */
  lemma TrimSplits(text: string) returns (before: string, after: string)
    ensures text == before + Trim(text) + after && Blank(before) && Blank(after)
    ensures Trim(text) != "" ==> !IsSpace(Trim(text)[0]) && !IsSpace(Trim(text)[|Trim(text)| - 1])
  {
    before := TrimLeftSplits(text);
    after := TrimRightSplits(TrimLeft(text));
    TrimLeftEnds(text);
    TrimRightEnds(TrimLeft(text));
  }

  lemma {:induction false} TrimLeftSplits(text: string) returns (before: string)
    ensures text == before + TrimLeft(text) && Blank(before)
  {
    before := "";
    if text != "" && IsSpace(text[0]) {
      before := TrimLeftSplits(text[1..]);
      assert text == [text[0]] + text[1..];
      before := [text[0]] + before;
    }
  }

  lemma {:induction false} TrimRightSplits(text: string) returns (after: string)
    ensures text == TrimRight(text) + after && Blank(after)
  {
    after := "";
    if text != "" && IsSpace(text[|text| - 1]) {
      var n := |text| - 1;
      after := TrimRightSplits(text[..n]);
      assert text == text[..n] + [text[n]];
      after := after + [text[n]];
    }
  }

  /** A blank text is one that trimming leaves nothing of. */
  lemma BlankIff(text: string)
    ensures Blank(text) <==> Trim(text) == ""
  {
    var before, after := TrimSplits(text);
    if Trim(text) != "" {
      assert text[|before|] == Trim(text)[0];
    }
  }

  lemma {:induction false} TrimIsIdempotent(text: string)
    ensures Trim(Trim(text)) == Trim(text)
  {
    TrimLeftEnds(text);
    TrimRightEnds(TrimLeft(text));
  }

  lemma {:induction false} TrimLeftEnds(text: string)
    ensures var t := TrimLeft(text); t == "" || !IsSpace(t[0])
  {
    if text != "" && IsSpace(text[0]) {
      TrimLeftEnds(text[1..]);
    }
  }

  lemma {:induction false} TrimRightEnds(text: string)
    ensures var t := TrimRight(text); t <= text && (t == "" || !IsSpace(t[|t| - 1]))
  {
    if text != "" && IsSpace(text[|text| - 1]) {
      TrimRightEnds(text[..|text| - 1]);
    }
  }

  function LowerChar(c: char): char {
    if 'A' <= c <= 'Z' then (c as int + 32) as char else c
  }

  function Lower(text: string): (lower: string)
    ensures |lower| == |text|
  {
    seq(|text|, i requires 0 <= i < |text| => LowerChar(text[i]))
  }

  /** No capital letters, and no spaces around. */
  predicate Plain(text: string) {
    && (forall i :: 0 <= i < |text| ==> !('A' <= text[i] <= 'Z'))
    && (text != "" ==> !IsSpace(text[0]) && !IsSpace(text[|text| - 1]))
  }

  lemma PlainStays(text: string)
    requires Plain(text)
    ensures Trim(text) == text && Lower(text) == text
  {
    assert forall i :: 0 <= i < |text| ==> Lower(text)[i] == LowerChar(text[i]) == text[i];
  }

  lemma {:induction false} LowerTrimLeft(text: string)
    ensures Lower(TrimLeft(text)) == TrimLeft(Lower(text))
  {
    if text != "" && IsSpace(text[0]) {
      LowerTrimLeft(text[1..]);
      assert Lower(text)[1..] == Lower(text[1..]);
    }
  }

  lemma {:induction false} LowerTrimRight(text: string)
    ensures Lower(TrimRight(text)) == TrimRight(Lower(text))
  {
    if text != "" && IsSpace(text[|text| - 1]) {
      LowerTrimRight(text[..|text| - 1]);
      assert Lower(text)[..|text| - 1] == Lower(text[..|text| - 1]);
    }
  }

  /** Letter case and surrounding space can be dropped in either order. */
  lemma LowerTrim(text: string)
    ensures Lower(Trim(text)) == Trim(Lower(text))
  {
    LowerTrimLeft(text);
    LowerTrimRight(TrimLeft(text));
  }

  predicate EqualFold(a: string, b: string) {
    Lower(a) == Lower(b)
  }

  /** The same letter, in either case. */
  predicate SameLetter(a: char, b: char) {
    || a == b
    || ('A' <= a <= 'Z' && b as int == a as int + 32)
    || ('A' <= b <= 'Z' && a as int == b as int + 32)
  }

  /** Folding ignores the case of letters, and nothing else. */
  lemma EqualFoldIff(a: string, b: string)
    ensures EqualFold(a, b) <==> |a| == |b| && forall i :: 0 <= i < |a| ==> SameLetter(a[i], b[i])
  {
    assert forall i :: 0 <= i < |a| ==> Lower(a)[i] == LowerChar(a[i]);
    assert forall i :: 0 <= i < |b| ==> Lower(b)[i] == LowerChar(b[i]);
    if |a| == |b| {
      forall i | 0 <= i < |a| ensures Lower(a)[i] == Lower(b)[i] <==> SameLetter(a[i], b[i]) {
        assert Lower(a)[i] == LowerChar(a[i]) && Lower(b)[i] == LowerChar(b[i]);
      }
    }
  }

  /** Go's `<` on strings. */
  predicate Less(a: string, b: string) {
    b != "" && (a == "" || a[0] < b[0] || (a[0] == b[0] && Less(a[1..], b[1..])))
  }

  /** The first place where the texts differ is in `n`, where `a` ends or has the smaller character. */
  ghost predicate LessAt(a: string, b: string, n: nat) {
    n <= |a| && n < |b| && a[..n] == b[..n] && (n == |a| || a[n] < b[n])
  }

  lemma {:induction false} LessIff(a: string, b: string)
    ensures Less(a, b) <==> exists n: nat :: LessAt(a, b, n)
  {
    if a != "" && b != "" {
      assert LessAt(a, b, 0) <==> a[0] < b[0];
      if a[0] == b[0] {
        LessIff(a[1..], b[1..]);
        forall n: nat ensures LessAt(a, b, n + 1) <==> LessAt(a[1..], b[1..], n) {
          LessAtRest(a, b, n);
        }
        if n: nat :| LessAt(a, b, n) {
          assert LessAt(a[1..], b[1..], n - 1);
        }
        if n: nat :| LessAt(a[1..], b[1..], n) {
          assert LessAt(a, b, n + 1);
        }
      } else if n: nat :| LessAt(a, b, n) {
        assert n > 0 ==> a[..n][0] == b[..n][0];
      }
    } else {
      assert b != "" ==> LessAt(a, b, 0);
    }
  }

  lemma LessAtRest(a: string, b: string, n: nat)
    requires a != "" && b != "" && a[0] == b[0]
    ensures LessAt(a, b, n + 1) <==> LessAt(a[1..], b[1..], n)
  {
    if n < |a| && n < |b| {
      assert a[..n + 1] == [a[0]] + a[1..][..n] && b[..n + 1] == [b[0]] + b[1..][..n];
    }
  }

  lemma {:induction false} LessIsIrreflexive(a: string)
    ensures !Less(a, a)
  {
    if a != "" {
      LessIsIrreflexive(a[1..]);
    }
  }

  lemma {:induction false} LessIsTransitive(a: string, b: string, c: string)
    requires Less(a, b) && Less(b, c)
    ensures Less(a, c)
  {
    if a != "" && a[0] == b[0] == c[0] {
      LessIsTransitive(a[1..], b[1..], c[1..]);
    }
  }

  lemma {:induction false} LessIsTotal(a: string, b: string)
    ensures Less(a, b) || a == b || Less(b, a)
  {
    if a != "" && b != "" && a[0] == b[0] {
      LessIsTotal(a[1..], b[1..]);
      assert a == [a[0]] + a[1..] && b == [b[0]] + b[1..];
    }
  }
}
