/** The text layer of the C API in `fileprop.c`: NUL-terminated buffers,
    the in-place escape decoder `_zp_convert`, and `_zp_next_elem`, which
    cuts one element out of a line buffer. */
module FilePropText {
  import opened Chars
  import opened Seqs
  import CppText

  /** The character an escape `\c` stands for: `t`, `f`, `r` and `n` name
      control characters, any other character stands for itself. */
  function EscapedChar(c: char): char {
    if c == 't' then '\t'
    else if c == 'f' then CppText.FormFeed
    else if c == 'r' then '\r'
    else if c == 'n' then '\n'
    else c
  }

  /** The text `_zp_convert` leaves: every escape replaced by the character
      it stands for (so an escaped backslash is one backslash), and a
      backslash at the very end dropped. */
  function Unescape(s: string): (r: string)
    ensures |r| <= |s|
  {
    if s == [] then []
    else if s[0] == '\\' then
      if |s| == 1 then [] else [EscapedChar(s[1])] + Unescape(s[2..])
    else [s[0]] + Unescape(s[1..])
  }

  /** Decoding never brings in a terminator. */
  lemma {:induction false} UnescapeNoNul(s: string)
    requires NoNul(s)
    ensures NoNul(Unescape(s))
    decreases |s|
  {
    if s != [] {
      if s[0] == '\\' {
        if |s| > 1 {
          UnescapeNoNul(s[2..]);
        }
      } else {
        UnescapeNoNul(s[1..]);
      }
    }
  }

  /** Text without backslashes decodes to itself. */
  lemma {:induction false} UnescapePlain(s: string)
    requires '\\' !in s
    ensures Unescape(s) == s
    decreases |s|
  {
    if s != [] {
      UnescapePlain(s[1..]);
      assert [s[0]] + s[1..] == s;
    }
  }

  /** One step of the decoder at position `i` of `s`. */
  lemma UnescapeAt(s: string, i: nat)
    requires i < |s|
    ensures s[i] != '\\' ==> Unescape(s[i..]) == [s[i]] + Unescape(s[i + 1..])
    ensures s[i] == '\\' && i + 1 == |s| ==> Unescape(s[i..]) == []
    ensures s[i] == '\\' && i + 1 < |s| ==> Unescape(s[i..]) == [EscapedChar(s[i + 1])] + Unescape(s[i + 2..])
  {
    var t := s[i..];
    assert t[0] == s[i];
    assert t[1..] == s[i + 1..];
    if i + 1 < |s| {
      assert t[1] == s[i + 1];
      assert t[2..] == s[i + 2..];
    }
  }

  /** Unlike the C++ decoder, an escaped backslash survives as one
      backslash, and an unknown escape keeps its character. */
  lemma EscapedBackslashKept()
    ensures Unescape(['\\', '\\']) == ['\\']
    ensures CppText.Decode(['\\', '\\']) == []
    ensures Unescape(['\\', 'x']) == ['x']
  {
    assert ['\\', '\\'][2..] == [];
    assert ['\\', 'x'][2..] == [];
  }

  /** Text written by the C++ encoder reads back through this decoder when
      it holds no backslash: the two implementations agree on such files. */
  lemma {:induction false} UnescapeCppEncode(s: string)
    requires '\\' !in s
    ensures Unescape(CppText.Encode(s)) == s
    decreases |s|
  {
    if s != [] {
      CppText.EncodeFrom(s, 0);
      assert s[0..] == s;
      var e := CppText.EscapeOf(s[0]);
      var rest := CppText.Encode(s[1..]);
      UnescapeCppEncode(s[1..]);
      assert CppText.Encode(s) == e + rest;
      if s[0] == '\t' || s[0] == CppText.FormFeed || s[0] == '\r' || s[0] == '\n' {
        assert |e| == 2 && e[0] == '\\';
        assert (e + rest)[2..] == rest;
      } else {
        assert e == [s[0]];
        assert (e + rest)[1..] == rest;
      }
      assert [s[0]] + s[1..] == s;
    }
  }

  /** `_zp_strlen`: the number of characters before the terminator at `n`. */
  method StrLen(buf: array<char>, ghost n: nat) returns (len: nat)
    requires n < buf.Length && buf[n] == Nul && NoNul(buf[..n])
    ensures len == n
  {
    len := 0;
    while buf[len] != Nul
      invariant len <= n
      invariant forall k :: 0 <= k < len ==> buf[k] != Nul
      decreases n - len
    {
      assert buf[..n][len] == buf[len];
      len := len + 1;
    }
  }

  /** The decoder part-way: `before` was the buffer, holding `s` and its
      terminator; reading has reached `i` and writing `j`; what is written
      plus what is left to decode is the whole decoded text (and, once the
      terminator has been read, it has been written too); nothing at or
      past `j` has changed. */
  ghost predicate Converting(s: string, before: seq<char>, b: seq<char>, i: nat, j: nat) {
    |s| < |before| == |b| && before[..|s|] == s && before[|s|] == Nul
    && j <= i <= |s| + 1
    && (i <= |s| ==> Unescape(s) == b[..j] + Unescape(s[i..]))
    && (i == |s| + 1 ==> b[..j] == Unescape(s) + [Nul])
    && b[j..] == before[j..]
  }

  /** The character the decoder reads at `i` and writes, and where it
      reads next. */
  function ConvertedAt(b: seq<char>, i: nat): char
    requires i < |b| && (b[i] == '\\' ==> i + 1 < |b|)
  {
    if b[i] == '\\' then EscapedChar(b[i + 1]) else b[i]
  }

  function NextRead(b: seq<char>, i: nat): nat
    requires i < |b|
  {
    if b[i] == '\\' then i + 2 else i + 1
  }

  lemma ConvertStep(s: string, before: seq<char>, b: seq<char>, i: nat, j: nat)
    requires Converting(s, before, b, i, j) && i <= |s|
    ensures i < |b| && (b[i] == '\\' ==> i + 1 < |b|) && j < |b|
    ensures Converting(s, before, b[j := ConvertedAt(b, i)], NextRead(b, i), j + 1)
  {
    assert b[i] == before[i];
    if i < |s| {
      assert before[i] == s[i];
      UnescapeAt(s, i);
      if b[i] == '\\' && i + 1 < |s| {
        assert b[i + 1] == s[i + 1];
      }
    } else {
      assert s[i..] == [];
    }
    var b' := b[j := ConvertedAt(b, i)];
    assert b'[..j + 1] == b[..j] + [ConvertedAt(b, i)];
    assert b'[j + 1..] == b[j + 1..];
    if NextRead(b, i) <= |s| {
      AppendAssoc(b[..j], [ConvertedAt(b, i)], Unescape(s[NextRead(b, i)..]), b'[..j + 1]);
    } else {
      assert Unescape(s[i..]) == [] && ConvertedAt(b, i) == Nul;
    }
  }

  lemma ConvertStart(s: string, before: seq<char>)
    requires |s| < |before| && before[..|s|] == s && before[|s|] == Nul
    ensures Converting(s, before, before, 0, 0)
  {
    assert s[0..] == s;
  }

  lemma ConvertDone(s: string, before: seq<char>, b: seq<char>, j: nat)
    requires Converting(s, before, b, |s| + 1, j)
    ensures b == Unescape(s) + [Nul] + before[|Unescape(s)| + 1..]
  {
    assert b == b[..j] + b[j..];
  }

  /** `_zp_convert(buf, buf)`: decodes the string in `buf` in place. The
      write index never passes the read index, so every character is read
      before it can be overwritten; the decoded text and its terminator
      end up at the front, and the rest of the buffer is untouched. */
  method Convert(buf: array<char>, ghost n: nat)
    requires n < buf.Length && buf[n] == Nul && NoNul(buf[..n])
    modifies buf
    ensures buf[..] == Unescape(old(buf[..n])) + [Nul] + old(buf[..])[|Unescape(old(buf[..n]))| + 1..]
  {
    ghost var s := buf[..n];
    ghost var before := buf[..];
    var length := StrLen(buf, n);
    length := length + 1;
    if length > 1 {
      var i, j := 0, 0;
      ConvertStart(s, before);
      while i < length
        invariant Converting(s, before, buf[..], i, j)
      {
        ghost var b, i0 := buf[..], i;
        ConvertStep(s, before, b, i, j);
        var c := buf[i];
        if c == '\\' {
          i := i + 1;
          c := EscapedChar(buf[i]);
        }
        buf[j] := c;
        assert buf[..] == b[j := ConvertedAt(b, i0)];
        j := j + 1;
        i := i + 1;
      }
      ConvertDone(s, before, buf[..], j);
    } else {
      assert buf[..] == [Nul] + before[1..];
    }
  }

  /** Index of the first `=` or `:` in `s`, or `|s|`. */
  function FirstSeparator(s: string): (r: nat)
    ensures r <= |s|
  {
    if s == [] then 0
    else if IsSeparator(s[0]) then 0
    else 1 + FirstSeparator(s[1..])
  }

  /** `FirstSeparator` stops at the first separator or the end. */
  lemma {:induction false} FirstSeparatorShape(s: string)
    ensures forall k :: 0 <= k < FirstSeparator(s) ==> !IsSeparator(s[k])
    ensures FirstSeparator(s) < |s| ==> IsSeparator(s[FirstSeparator(s)])
    decreases |s|
  {
    if s != [] && !IsSeparator(s[0]) {
      FirstSeparatorShape(s[1..]);
    }
  }

  lemma {:induction false} FirstSeparatorAt(s: string, k: nat)
    requires k <= |s|
    requires forall m :: 0 <= m < k ==> !IsSeparator(s[m])
    requires k < |s| ==> IsSeparator(s[k])
    ensures FirstSeparator(s) == k
    decreases k
  {
    if k > 0 {
      FirstSeparatorAt(s[1..], k - 1);
    }
  }

  /** Where `_zp_next_elem` stops in the text `seg` it scans: at the first
      separator when it reads a key, at the terminator otherwise. */
  function ElemEnd(seg: string, isKey: bool): (r: nat)
    ensures r <= |seg|
  {
    if isKey then FirstSeparator(seg) else |seg|
  }

  /** `_zp_next_elem` part-way: the characters from `pos` up to `i` have
      been moved to the front of the buffer; nothing from `j` on has
      changed; a key has met no separator yet. */
  ghost predicate Cutting(before: seq<char>, b: seq<char>, pos: nat, end: nat, isKey: bool, i: nat, j: nat) {
    |b| == |before| && pos <= i <= end < |before|
    && j == i - pos && b[..j] == before[pos..i] && b[j..] == before[j..]
    && (isKey ==> forall k :: pos <= k < i ==> !IsSeparator(before[k]))
  }

  lemma CutStep(before: seq<char>, b: seq<char>, pos: nat, end: nat, isKey: bool, i: nat, j: nat)
    requires Cutting(before, b, pos, end, isKey, i, j) && i < end
    requires !(isKey && IsSeparator(b[i]))
    ensures Cutting(before, b[j := b[i]], pos, end, isKey, i + 1, j + 1)
  {
    assert b[i] == before[i];
    var b' := b[j := b[i]];
    assert b'[..j + 1] == b[..j] + [before[i]];
    assert before[pos..i + 1] == before[pos..i] + [before[i]];
    assert b'[j + 1..] == b[j + 1..];
  }

  lemma CutDone(before: seq<char>, b: seq<char>, pos: nat, end: nat, isKey: bool, i: nat, j: nat)
    requires Cutting(before, b, pos, end, isKey, i, j)
    requires forall k :: pos <= k < end ==> before[k] != Nul
    requires before[end] == Nul
    requires b[i] == Nul || (isKey && IsSeparator(b[i]))
    ensures i - pos == ElemEnd(before[pos..end], isKey)
    ensures b[j := Nul] == before[pos..end][..i - pos] + [Nul] + before[i - pos + 1..]
  {
    var seg := before[pos..end];
    assert b[i] == before[i];
    if isKey {
      if i < end {
        assert seg[i - pos] == before[i];
      }
      FirstSeparatorAt(seg, i - pos);
    }
    assert seg[..i - pos] == before[pos..i];
    var b' := b[j := Nul];
    assert b' == b[..j] + [Nul] + b[j + 1..];
  }

  /** `_zp_next_elem`: moves the element that starts at `pos` to the front
      of the buffer and terminates it. A key ends at the first `=` or `:`;
      a value runs to the terminator, separators included. The next
      element starts one past where this one stopped, which for a key
      without a separator is one past the terminator. The element is
      returned trimmed of blanks. */
  method NextElem(buf: array<char>, pos: nat, isKey: bool, ghost end: nat) returns (elem: string, newPos: nat)
    requires pos <= end < buf.Length && buf[end] == Nul
    requires forall k :: pos <= k < end ==> buf[k] != Nul
    modifies buf
    ensures newPos == pos + ElemEnd(old(buf[pos..end]), isKey) + 1
    ensures buf[..] == old(buf[pos..end])[..ElemEnd(old(buf[pos..end]), isKey)] + [Nul]
      + old(buf[..])[ElemEnd(old(buf[pos..end]), isKey) + 1..]
    ensures elem == Trim(old(buf[pos..end])[..ElemEnd(old(buf[pos..end]), isKey)])
  {
    ghost var before := buf[..];
    var i, j := pos, 0;
    while buf[i] != Nul
      invariant Cutting(before, buf[..], pos, end, isKey, i, j)
      decreases end - i
    {
      if isKey && IsSeparator(buf[i]) {
        break;
      }
      CutStep(before, buf[..], pos, end, isKey, i, j);
      buf[j] := buf[i];
      j := j + 1;
      i := i + 1;
    }
    newPos := i + 1;
    CutDone(before, buf[..], pos, end, isKey, i, j);
    buf[j] := Nul;
    assert buf[..j] == before[pos..end][..j] by {
      assert buf[..] == before[pos..end][..j] + [Nul] + before[j + 1..];
    }
    elem := Trim(buf[..j]);
  }
}
