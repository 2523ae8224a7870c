/** Character classes and blank trimming shared by the three readers. */
module Chars {

  const Nul: char := '\0'

  /** A C string's characters: none of them is the terminator. */
  predicate NoNul(s: string) {
    forall k :: 0 <= k < |s| ==> s[k] != Nul
  }

  /** A string as C code sees it through its `char*`: the characters before
      the first terminator. */
  function CString(s: string): (r: string)
    ensures NoNul(r)
    ensures NoNul(s) ==> r == s
  {
    if s == [] || s[0] == Nul then [] else [s[0]] + CString(s[1..])
  }

  /** Whatever follows the first terminator is invisible through the `char*`. */
  lemma {:induction false} CStringStopsAtNul(s: string, tail: string)
    requires NoNul(s)
    ensures CString(s + [Nul] + tail) == s
    decreases |s|
  {
    if s != [] {
      assert (s + [Nul] + tail)[1..] == s[1..] + [Nul] + tail;
      CStringStopsAtNul(s[1..], tail);
    }
  }

  /** `isblank` in the "C" locale: space and horizontal tab. */
  predicate IsBlank(c: char) {
    c == ' ' || c == '\t'
  }

  /** The two characters every reader treats as the end of a physical line. */
  predicate IsLineBreak(c: char) {
    c == '\n' || c == '\r'
  }

  /** The key/value separators of the format. */
  predicate IsSeparator(c: char) {
    c == '=' || c == ':'
  }

  predicate AllBlank(s: string) {
    forall i :: 0 <= i < |s| ==> IsBlank(s[i])
  }

  /** First position at or after `i` that does not hold a blank. */
  function SkipBlanks(text: string, i: nat): (r: nat)
    requires i <= |text|
    ensures i <= r <= |text|
    decreases |text| - i
  {
    if i < |text| && IsBlank(text[i]) then SkipBlanks(text, i + 1) else i
  }

  /** `SkipBlanks` passes blanks only, and stops at a non-blank or the end. */
  lemma {:induction false} SkipBlanksShape(text: string, i: nat)
    requires i <= |text|
    ensures forall k :: i <= k < SkipBlanks(text, i) ==> IsBlank(text[k])
    ensures SkipBlanks(text, i) < |text| ==> !IsBlank(text[SkipBlanks(text, i)])
    decreases |text| - i
  {
    if i < |text| && IsBlank(text[i]) {
      SkipBlanksShape(text, i + 1);
    }
  }

  /** First position at or after `i` that holds a line break, or the end of `text`. */
  function LineEnd(text: string, i: nat): (r: nat)
    requires i <= |text|
    ensures i <= r <= |text|
    decreases |text| - i
  {
    if i < |text| && !IsLineBreak(text[i]) then LineEnd(text, i + 1) else i
  }

  /** `LineEnd` passes non-breaks only, and stops at a break or the end. */
  lemma {:induction false} LineEndShape(text: string, i: nat)
    requires i <= |text|
    ensures forall k :: i <= k < LineEnd(text, i) ==> !IsLineBreak(text[k])
    ensures LineEnd(text, i) < |text| ==> IsLineBreak(text[LineEnd(text, i)])
    decreases |text| - i
  {
    if i < |text| && !IsLineBreak(text[i]) {
      LineEndShape(text, i + 1);
    }
  }

  /** A position past a run of non-break characters ends that run's physical line
      exactly when it holds a break or is the end of the text. */
  lemma {:induction false} LineEndAt(text: string, i: nat, e: nat)
    requires i <= e <= |text|
    requires forall k :: i <= k < e ==> !IsLineBreak(text[k])
    requires e < |text| ==> IsLineBreak(text[e])
    ensures LineEnd(text, i) == e
    decreases e - i
  {
    if i < e {
      LineEndAt(text, i + 1, e);
    }
  }

  /** A character that is not a break, at or before the end of the line,
      is before it. */
  lemma LineEndPast(text: string, i: nat, k: nat)
    requires i <= k < |text| && k <= LineEnd(text, i) && !IsLineBreak(text[k])
    ensures k + 1 <= LineEnd(text, i)
  {
    LineEndShape(text, i);
  }

  /** A break at or before the end of the line is its end. */
  lemma LineEndHere(text: string, i: nat, k: nat)
    requires i <= k < |text| && k <= LineEnd(text, i) && IsLineBreak(text[k])
    ensures LineEnd(text, i) == k
  {
    LineEndShape(text, i);
  }

  /** Leading blanks removed. */
  function TrimLeft(s: string): (r: string)
    ensures |r| <= |s|
    ensures r == [] || !IsBlank(r[0])
  {
    if s != [] && IsBlank(s[0]) then TrimLeft(s[1..]) else s
  }

  /** Trailing blanks removed. */
  function TrimRight(s: string): (r: string)
    ensures |r| <= |s|
    ensures r == [] || !IsBlank(r[|r| - 1])
  {
    if s != [] && IsBlank(s[|s| - 1]) then TrimRight(s[..|s| - 1]) else s
  }

  /** `TrimLeft` drops exactly a run of blanks from the front. */
  lemma {:induction false} TrimLeftIsSuffix(s: string)
    ensures TrimLeft(s) == s[|s| - |TrimLeft(s)|..]
    ensures AllBlank(s[..|s| - |TrimLeft(s)|])
    decreases |s|
  {
    if s != [] && IsBlank(s[0]) {
      var r := TrimLeft(s[1..]);
      TrimLeftIsSuffix(s[1..]);
      assert s[1..][|s| - 1 - |r|..] == s[|s| - |r|..];
      assert s[1..][..|s| - 1 - |r|] == s[1..|s| - |r|];
    } else {
      assert s[..0] == [];
    }
  }

  /** `TrimRight` drops exactly a run of blanks from the back. */
  lemma {:induction false} TrimRightIsPrefix(s: string)
    ensures TrimRight(s) == s[..|TrimRight(s)|]
    ensures AllBlank(s[|TrimRight(s)|..])
    decreases |s|
  {
    if s != [] && IsBlank(s[|s| - 1]) {
      var r := TrimRight(s[..|s| - 1]);
      TrimRightIsPrefix(s[..|s| - 1]);
      assert s[..|s| - 1][..|r|] == s[..|r|];
      assert s[..|s| - 1][|r|..] == s[|r|..|s| - 1];
    } else {
      assert s[|s|..] == [];
    }
  }

  /** Leading and trailing blanks removed, interior blanks kept. */
  function Trim(s: string): string {
    TrimRight(TrimLeft(s))
  }

  /** `s` with every blank removed and the other characters kept in order. */
  function DropBlanks(s: string): (r: string)
    ensures |r| <= |s|
  {
    if s == [] then []
    else
      var last := s[|s| - 1];
      var r := DropBlanks(s[..|s| - 1]);
      if IsBlank(last) then r else r + [last]
  }

  /** The blank-free copy holds no blank, and only characters of `s`. */
  lemma {:induction false} DropBlanksShape(s: string)
    ensures forall i :: 0 <= i < |DropBlanks(s)| ==> !IsBlank(DropBlanks(s)[i])
    ensures forall i :: 0 <= i < |DropBlanks(s)| ==> DropBlanks(s)[i] in s
    decreases |s|
  {
    if s != [] {
      var init := s[..|s| - 1];
      DropBlanksShape(init);
      assert forall i :: 0 <= i < |DropBlanks(init)| ==> DropBlanks(init)[i] in s by {
        forall i | 0 <= i < |DropBlanks(init)| ensures DropBlanks(init)[i] in s {
          var c := DropBlanks(init)[i];
          var k :| 0 <= k < |init| && init[k] == c;
          assert s[k] == c;
        }
      }
    }
  }

  /** Extending a prefix by one character extends its blank-free copy by
      that character unless it is a blank. */
  lemma DropBlanksSnoc(s: string, i: nat)
    requires i < |s|
    ensures DropBlanks(s[..i + 1]) == DropBlanks(s[..i]) + (if IsBlank(s[i]) then [] else [s[i]])
  {
    assert s[..i + 1][..i] == s[..i];
  }

  /** Appending one character to a string whose leading blanks are being skipped. */
  lemma {:induction false} TrimLeftSnoc(s: string, c: char)
    ensures TrimLeft(s + [c]) == if TrimLeft(s) == [] && IsBlank(c) then [] else TrimLeft(s) + [c]
    decreases |s|
  {
    var sc := s + [c];
    if s == [] {
      assert sc == [c];
      if IsBlank(c) {
        assert sc[1..] == [];
      }
    } else if IsBlank(s[0]) {
      assert sc[0] == s[0];
      assert sc[1..] == s[1..] + [c];
      TrimLeftSnoc(s[1..], c);
    } else {
      assert sc[0] == s[0];
    }
  }

  /** A trimmed string of non-blank ends is its own trim. */
  lemma TrimNonBlankEnds(s: string)
    requires s != [] && !IsBlank(s[0]) && !IsBlank(s[|s| - 1])
    ensures Trim(s) == s
  {
  }

  /** Cutting a string just after its last non-blank is trimming its right end. */
  lemma TrimRightAt(s: string, n: nat)
    requires n <= |s|
    requires n == 0 || !IsBlank(s[n - 1])
    requires AllBlank(s[n..])
    ensures TrimRight(s) == s[..n]
    decreases |s|
  {
    if |s| > n {
      assert IsBlank(s[|s| - 1]);
      assert s[..|s| - 1][n..] == s[n..|s| - 1];
      TrimRightAt(s[..|s| - 1], n);
      assert s[..|s| - 1][..n] == s[..n];
    } else {
      assert s[..n] == s;
      if s != [] {
        assert !IsBlank(s[|s| - 1]);
      }
    }
  }
}
