/** Reading and writing the older C API's files (`_zPropRead` and
    `_zPropWrite` in `zprop.c`). The file's bytes are a string; the reader
    is a machine that takes one character at a time, specified here by
    `Step` and folded over the text by `Steps`. */
module ZPropIO {
  import opened Chars
  import opened ZProp

  /** The reader's state between two characters: the flags `_cp_key_`,
      `_cp_val_`, `_newLine_` and `_comment_`, the characters copied into
      `copy_bt` so far, and the slots added to the store. */
  datatype Scan = Scan(copyKey: bool, copyValue: bool, newLine: bool, comment: bool, copied: string, props: seq<string>)

  /** Reading goes on in a state, or has stopped at an error. */
  datatype Progress = Going(scan: Scan) | Stopped(error: ZPropError)

  /** What `_zPropRead` leaves: the slots of the new store, or an error. */
  datatype ReadResult = Read(props: seq<string>) | Failed(error: ZPropError)

  /** All flags down, nothing copied, an empty store: `_newLine_` too
      starts false, so the first line is not treated as following a line
      break. */
  const Start: Scan := Scan(false, false, false, false, [], [])

  /** The characters that start a comment line. */
  predicate IsCommentMark(c: char) {
    c == '#' || c == ';' || c == '!'
  }

  /** The top of the loop: a value still being copied is added to the store
      once a line break has been seen. */
  function Commit(s: Scan): Scan {
    if s.copyValue && s.newLine then s.(copyValue := false, copied := [], props := s.props + [CString(s.copied)])
    else s
  }

  /** The rest of the loop body for character `c`. */
  function Process(s: Scan, c: char): Progress {
    if IsLineBreak(c) then
      if s.copyKey then Stopped(Syntax) else Going(s.(comment := false, newLine := true))
    else if s.newLine && IsBlank(c) then Going(s)
    else
      var s1 := if !s.newLine then s else if IsCommentMark(c) then s.(newLine := false, comment := true) else s.(newLine := false);
      if s1.comment then Going(s1)
      else
        var s2 := if !s1.copyKey && !s1.copyValue then s1.(copyKey := true) else s1;
        if s2.copyKey && c != ' ' && IsSeparator(c) then
          if s2.copied == [] then Stopped(Syntax)
          else Going(s2.(props := s2.props + [CString(s2.copied)], copied := [], copyValue := true, copyKey := false))
        else if s2.copyKey || s2.copyValue then Going(s2.(copied := s2.copied + [c]))
        else Going(s2)
  }

  /** One pass of the loop for a character that is not past the end. */
  function Step(p: Progress, c: char): Progress {
    if p.Stopped? then p else Process(Commit(p.scan), c)
  }

  /** The loop over a whole text. */
  function Steps(p: Progress, text: string): Progress
    decreases |text|
  {
    if text == [] then p else Steps(Step(p, text[0]), text[1..])
  }

  /** At the end of the text a value still being copied is added; a key
      still being copied is dropped. */
  function Finish(s: Scan): seq<string> {
    if s.copyValue then s.props + [CString(s.copied)] else s.props
  }

  /** `_zPropRead` on a whole file. */
  function ReadProps(text: string): ReadResult {
    var p := Steps(Going(Start), text);
    if p.Stopped? then Failed(p.error) else Read(Finish(p.scan))
  }

  // ---------------------------------------------------------------------
  // The fold

  lemma {:induction false} StepsAppend(p: Progress, a: string, b: string)
    ensures Steps(p, a + b) == Steps(Steps(p, a), b)
    decreases |a|
  {
    if a != [] {
      assert (a + b)[0] == a[0] && (a + b)[1..] == a[1..] + b;
      StepsAppend(Step(p, a[0]), a[1..], b);
    } else {
      assert a + b == b;
    }
  }

  lemma StepsOne(p: Progress, c: char)
    ensures Steps(p, [c]) == Step(p, c)
  {
    assert [c][1..] == [];
  }

  /** Once stopped, reading stays stopped. */
  lemma {:induction false} StepsStopped(e: ZPropError, text: string)
    ensures Steps(Stopped(e), text) == Stopped(e)
    decreases |text|
  {
    if text != [] {
      StepsStopped(e, text[1..]);
    }
  }

  /** The state the reader is in after the first `i` characters. */
  ghost predicate Scanning(text: string, i: nat, s: Scan) {
    i <= |text| && Steps(Going(Start), text[..i]) == Going(s)
  }

  lemma ScanStart(text: string)
    ensures Scanning(text, 0, Start)
  {
    assert text[..0] == [];
  }

  lemma ScanAdvance(text: string, i: nat, s: Scan, s': Scan)
    requires Scanning(text, i, s) && i < |text|
    requires Process(Commit(s), text[i]) == Going(s')
    ensures Scanning(text, i + 1, s')
  {
    assert text[..i + 1] == text[..i] + [text[i]];
    StepsAppend(Going(Start), text[..i], [text[i]]);
    StepsOne(Going(s), text[i]);
  }

  lemma ScanHalt(text: string, i: nat, s: Scan, e: ZPropError)
    requires Scanning(text, i, s) && i < |text|
    requires Process(Commit(s), text[i]) == Stopped(e)
    ensures ReadProps(text) == Failed(e)
  {
    assert text[..i + 1] == text[..i] + [text[i]];
    StepsAppend(Going(Start), text[..i], [text[i]]);
    StepsOne(Going(s), text[i]);
    assert text == text[..i + 1] + text[i + 1..];
    StepsAppend(Going(Start), text[..i + 1], text[i + 1..]);
    StepsStopped(e, text[i + 1..]);
  }

  lemma ScanDone(text: string, s: Scan)
    requires Scanning(text, |text|, s)
    ensures ReadProps(text) == Read(Finish(s))
  {
    assert text[..|text|] == text;
  }

  /** `Process` on a line break. */
  lemma ProcessBreak(s: Scan, c: char)
    requires IsLineBreak(c)
    ensures Process(s, c) == if s.copyKey then Stopped(Syntax) else Going(s.(comment := false, newLine := true))
  {
  }

  /** `Process` on a blank just after a line break. */
  lemma ProcessBlank(s: Scan, c: char)
    requires !IsLineBreak(c) && s.newLine && IsBlank(c)
    ensures Process(s, c) == Going(s)
  {
  }

  /** `Process` on a character of a comment line. */
  lemma ProcessComment(s: Scan, c: char)
    requires !IsLineBreak(c) && !(s.newLine && IsBlank(c))
    requires s.comment || (s.newLine && IsCommentMark(c))
    ensures Process(s, c) == Going(s.(newLine := false, comment := true))
  {
  }

  /** `Process` on a separator that ends a key. */
  lemma ProcessSeparator(s: Scan, c: char)
    requires !IsLineBreak(c) && !(s.newLine && IsBlank(c))
    requires !s.comment && !(s.newLine && IsCommentMark(c))
    requires (s.copyKey || !s.copyValue) && c != ' ' && IsSeparator(c)
    ensures Process(s, c) == if s.copied == [] then Stopped(Syntax)
      else Going(s.(newLine := false, props := s.props + [CString(s.copied)], copied := [], copyValue := true, copyKey := false))
  {
  }

  /** `Process` on a character that is copied. */
  lemma ProcessCopy(s: Scan, c: char)
    requires !IsLineBreak(c) && !(s.newLine && IsBlank(c))
    requires !s.comment && !(s.newLine && IsCommentMark(c))
    requires !((s.copyKey || !s.copyValue) && c != ' ' && IsSeparator(c))
    ensures Process(s, c) == Going(s.(newLine := false, copyKey := s.copyKey || !s.copyValue, copied := s.copied + [c]))
  {
  }

  // ---------------------------------------------------------------------
  // The reader as written

  /** The `realloc` that lengthens `copy_bt`: a longer array holding what
      the old one held. */
  method Grow(a: array<char>, n: nat) returns (b: array<char>)
    requires a.Length <= n
    ensures fresh(b) && b.Length == n && b[..a.Length] == a[..]
  {
    b := new char[n](_ => Nul);
    var k := 0;
    while k < a.Length
      invariant 0 <= k <= a.Length
      invariant b[..k] == a[..k]
    {
      b[k] := a[k];
      k := k + 1;
    }
  }

  /** Ending the key or value in `copy_bt` at `j` and adding it to the
      store, which copies it up to the terminator. */
  method AddCopied(store: PropStore, copy: array<char>, j: nat)
    requires j < copy.Length
    modifies store, copy
    ensures store.props == old(store.props) + [CString(old(copy[..j]))]
  {
    copy[j] := Nul;
    assert copy[..j] == old(copy[..j]);
    var _ := store.AddKeyOrValue(CString(copy[..j]), Alloc(true, true));
  }

  /** Copying one character into `copy_bt` at `j`: the buffer is first
      allocated with room for 1024 characters, or grown by 256 when full. */
  method PutChar(copy: array<char>, hasBuffer: bool, nBytes: nat, j: nat, c: char) returns (copy': array<char>, nBytes': nat)
    requires hasBuffer ==> copy.Length == nBytes + 1 && j <= nBytes
    requires !hasBuffer ==> j == 0
    modifies copy
    ensures copy' == copy || fresh(copy')
    ensures copy'.Length == nBytes' + 1 && j < nBytes'
    ensures copy'[..j + 1] == old(copy[..j]) + [c]
  {
    copy', nBytes' := copy, nBytes;
    if !hasBuffer {
      nBytes' := 1024;
      copy' := new char[nBytes' + 1](_ => Nul);
    } else if j == nBytes {
      nBytes' := nBytes + 256;
      copy' := Grow(copy, nBytes' + 1);
    }
    assert copy'[..j] == old(copy[..j]);
    copy'[j] := c;
    assert copy'[..j + 1] == old(copy[..j]) + [c];
  }

  /** `_zPropRead`: one loop over the characters, copying a key or a value
      into `copy_bt` (1024 characters at first, 256 more whenever it is
      full) and adding each finished one to a new store. */
  method PropRead(text: string) returns (error: ZPropError, store: PropStore)
    ensures error == Ok || error == Syntax
    ensures error == Ok ==> store.Valid()
    ensures ReadProps(text) == if error == Ok then Read(store.props) else Failed(error)
  {
    error := Ok;
    store := new PropStore();
    var copy: array<char> := new char[0];
    var hasBuffer := false;
    var nBytes := 0;
    var j := 0;
    var copyKey, copyValue, newLine, comment := false, false, false, false;
    var i := 0;
    ScanStart(text);
    while i < |text|
      invariant fresh(copy) && fresh(store)
      invariant hasBuffer ==> copy.Length == nBytes + 1 && j <= nBytes
      invariant !hasBuffer ==> j == 0
      invariant copyKey || copyValue ==> hasBuffer
      invariant Scanning(text, i, Scan(copyKey, copyValue, newLine, comment, copy[..j], store.props))
      decreases |text| - i
    {
      ghost var s := Scan(copyKey, copyValue, newLine, comment, copy[..j], store.props);
      if copyValue && newLine {
        copyValue := false;
        AddCopied(store, copy, j);
        j := 0;
      }
      ghost var s1 := Scan(copyKey, copyValue, newLine, comment, copy[..j], store.props);
      assert s1 == Commit(s);
      var c := text[i];
      if IsLineBreak(c) {
        ProcessBreak(s1, c);
        comment := false;
        newLine := true;
        if copyKey {
          ScanHalt(text, i, s, Syntax);
          return Syntax, store;
        }
        ScanAdvance(text, i, s, Scan(copyKey, copyValue, newLine, comment, copy[..j], store.props));
        i := i + 1;
        continue;
      }
      if newLine {
        if IsBlank(c) {
          ProcessBlank(s1, c);
          ScanAdvance(text, i, s, s1);
          i := i + 1;
          continue;
        }
        newLine := false;
        if IsCommentMark(c) {
          comment := true;
        }
      }
      if comment {
        ProcessComment(s1, c);
        ScanAdvance(text, i, s, Scan(copyKey, copyValue, newLine, comment, copy[..j], store.props));
        i := i + 1;
        continue;
      }
      if !copyKey && !copyValue {
        copyKey := true;
      }
      if copyKey && c != ' ' && IsSeparator(c) {
        ProcessSeparator(s1, c);
        if j == 0 {
          ScanHalt(text, i, s, Syntax);
          return Syntax, store;
        }
        AddCopied(store, copy, j);
        j := 0;
        copyValue := true;
        copyKey := false;
        ScanAdvance(text, i, s, Scan(copyKey, copyValue, newLine, comment, copy[..j], store.props));
        i := i + 1;
        continue;
      }
      ProcessCopy(s1, c);
      if copyKey || copyValue {
        copy, nBytes := PutChar(copy, hasBuffer, nBytes, j, c);
        hasBuffer := true;
        j := j + 1;
      }
      ScanAdvance(text, i, s, Scan(copyKey, copyValue, newLine, comment, copy[..j], store.props));
      i := i + 1;
    }
    ghost var s := Scan(copyKey, copyValue, newLine, comment, copy[..j], store.props);
    if copyValue {
      copyValue := false;
      AddCopied(store, copy, j);
      j := 0;
    }
    ScanDone(text, s);
    ReadShape(text);
  }

  // ---------------------------------------------------------------------
  // The shape of what is read

  /** Between two characters the copied slots are whole pairs, plus the key
      of the value being copied; both flags are never up together. */
  ghost predicate Shaped(s: Scan) {
    !(s.copyKey && s.copyValue)
    && |s.props| % 2 == (if s.copyValue then 1 else 0)
    && forall k :: 0 <= k < |s.props| ==> NoNul(s.props[k])
  }

  lemma StepShaped(p: Progress, c: char)
    requires p.Going? ==> Shaped(p.scan)
    ensures Step(p, c).Going? ==> Shaped(Step(p, c).scan)
  {
    if p.Going? {
      var s := Commit(p.scan);
      if IsLineBreak(c) {
        ProcessBreak(s, c);
      } else if s.newLine && IsBlank(c) {
        ProcessBlank(s, c);
      } else if s.comment || (s.newLine && IsCommentMark(c)) {
        ProcessComment(s, c);
      } else if (s.copyKey || !s.copyValue) && c != ' ' && IsSeparator(c) {
        ProcessSeparator(s, c);
      } else {
        ProcessCopy(s, c);
      }
    }
  }

  lemma {:induction false} StepsShaped(p: Progress, text: string)
    requires p.Going? ==> Shaped(p.scan)
    ensures Steps(p, text).Going? ==> Shaped(Steps(p, text).scan)
    decreases |text|
  {
    if text != [] {
      StepShaped(p, text[0]);
      StepsShaped(Step(p, text[0]), text[1..]);
    }
  }

  /** Whatever the text, a store that is read has whole pairs of C strings. */
  lemma ReadShape(text: string)
    ensures ReadProps(text).Read? ==> |ReadProps(text).props| % 2 == 0
    ensures ReadProps(text).Read? ==> forall k :: 0 <= k < |ReadProps(text).props| ==> NoNul(ReadProps(text).props[k])
  {
    StepsShaped(Going(Start), text);
  }

  // ---------------------------------------------------------------------
  // The writer

  /** One pair as `_zPropWrite` writes it. */
  function PairLine(key: string, value: string): string {
    key + "=" + value
  }

  /** `_zPropWrite`: `key=value` for each pair in order, a line feed
      between two pairs and none after the last. */
  function WriteText(props: seq<string>): string
    requires |props| % 2 == 0
    decreases |props|
  {
    if |props| == 0 then []
    else if |props| == 2 then PairLine(props[0], props[1])
    else WriteText(props[..|props| - 2]) + "\n" + PairLine(props[|props| - 2], props[|props| - 1])
  }

  /** The text written for the first `i` slots, then the line feed that
      follows when a pair is still to come. */
  ghost function Written(props: seq<string>, i: nat): string
    requires i % 2 == 0 && i <= |props|
  {
    WriteText(props[..i]) + if 0 < i < |props| then "\n" else ""
  }

  lemma WrittenNext(props: seq<string>, i: nat)
    requires i % 2 == 0 && i + 2 <= |props|
    ensures WriteText(props[..i + 2]) == Written(props, i) + PairLine(props[i], props[i + 1])
  {
    var p := props[..i + 2];
    assert p[..|p| - 2] == props[..i];
    assert p[|p| - 2] == props[i] && p[|p| - 1] == props[i + 1];
  }

  /** `_zPropWrite` on a store. */
  method PropWrite(store: PropStore) returns (out: string)
    requires store.Valid()
    ensures out == WriteText(store.props)
  {
    var props := store.props;
    out := [];
    if |props| > 0 {
      var i := 1;
      while i < |props|
        invariant 1 <= i <= |props| + 1 && i % 2 == 1
        invariant out == Written(props, i - 1)
      {
        WrittenNext(props, i - 1);
        ghost var before := out;
        out := out + props[i - 1];
        out := out + "=";
        out := out + props[i];
        assert out == before + PairLine(props[i - 1], props[i]);
        if i + 1 < |props| {
          out := out + "\n";
        }
        i := i + 2;
      }
      assert props[..|props|] == props;
    }
  }

  // ---------------------------------------------------------------------
  // What the reader makes of written text

  /** A key the reader gets back from a line: not empty, no separator, no
      line break, no terminator, and a first character that is neither a
      blank nor a comment mark (after a line break those are skipped). */
  predicate GoodKey(k: string) {
    |k| > 0 && NoNul(k) && !IsBlank(k[0]) && !IsCommentMark(k[0])
    && forall i :: 0 <= i < |k| ==> !IsSeparator(k[i]) && !IsLineBreak(k[i])
  }

  /** A value the reader gets back: no line break and no terminator. */
  predicate GoodValue(v: string) {
    NoNul(v) && forall i :: 0 <= i < |v| ==> !IsLineBreak(v[i])
  }

  predicate GoodProps(props: seq<string>) {
    |props| % 2 == 0
    && (forall i :: 0 <= i < |props| && i % 2 == 0 ==> GoodKey(props[i]))
    && (forall i :: 0 <= i < |props| && i % 2 == 1 ==> GoodValue(props[i]))
  }

  /** Key characters are copied, blanks among them. */
  lemma {:induction false} KeyChars(s: Scan, k: string)
    requires s.copyKey && !s.copyValue && !s.newLine && !s.comment
    requires forall i :: 0 <= i < |k| ==> !IsSeparator(k[i]) && !IsLineBreak(k[i])
    ensures Steps(Going(s), k) == Going(s.(copied := s.copied + k))
    decreases |k|
  {
    if k != [] {
      var s' := s.(copied := s.copied + [k[0]]);
      assert Step(Going(s), k[0]) == Going(s');
      KeyChars(s', k[1..]);
      assert s'.copied + k[1..] == s.copied + k;
    } else {
      assert s.copied + k == s.copied;
    }
  }

  /** Value characters are copied, separators and blanks among them. */
  lemma {:induction false} ValueChars(s: Scan, v: string)
    requires !s.copyKey && s.copyValue && !s.newLine && !s.comment
    requires forall i :: 0 <= i < |v| ==> !IsLineBreak(v[i])
    ensures Steps(Going(s), v) == Going(s.(copied := s.copied + v))
    decreases |v|
  {
    if v != [] {
      var s' := s.(copied := s.copied + [v[0]]);
      assert Step(Going(s), v[0]) == Going(s');
      ValueChars(s', v[1..]);
      assert s'.copied + v[1..] == s.copied + v;
    } else {
      assert s.copied + v == s.copied;
    }
  }

  /** A line `key=value` read from a state with nothing being copied adds
      the key and leaves the value being copied. */
  lemma ReadPair(s: Scan, k: string, v: string)
    requires Commit(s).copyKey == false && Commit(s).copyValue == false
    requires Commit(s).comment == false && Commit(s).copied == []
    requires |k| > 0 && NoNul(k) && forall i :: 0 <= i < |k| ==> !IsSeparator(k[i]) && !IsLineBreak(k[i])
    requires s.newLine ==> !IsBlank(k[0]) && !IsCommentMark(k[0])
    requires forall i :: 0 <= i < |v| ==> !IsLineBreak(v[i])
    ensures Steps(Going(s), PairLine(k, v)) == Going(Scan(false, true, false, false, v, Commit(s).props + [k]))
  {
    var c := Commit(s);
    var s1 := Scan(true, false, false, false, [k[0]], c.props);
    assert Step(Going(s), k[0]) == Going(s1);
    StepsOne(Going(s), k[0]);
    KeyChars(s1, k[1..]);
    assert [k[0]] + k[1..] == k;
    StepsAppend(Going(s), [k[0]], k[1..]);
    var s2 := s1.(copied := k);
    var s3 := Scan(false, true, false, false, [], c.props + [k]);
    assert Step(Going(s2), '=') == Going(s3);
    StepsOne(Going(s2), '=');
    StepsAppend(Going(s), k, "=");
    ValueChars(s3, v);
    assert s3.(copied := [] + v) == Scan(false, true, false, false, v, c.props + [k]);
    StepsAppend(Going(s), k + "=", v);
  }

  /** Reading the text written for some good pairs: every pair but the
      last value is in the store, and the last value is being copied. */
  lemma {:induction false} ReadWritten(props: seq<string>)
    requires GoodProps(props) && |props| >= 2
    ensures Steps(Going(Start), WriteText(props))
      == Going(Scan(false, true, false, false, props[|props| - 1], props[..|props| - 1]))
    decreases |props|
  {
    var n := |props|;
    var k, v := props[n - 2], props[n - 1];
    assert GoodKey(k) && GoodValue(v);
    if n == 2 {
      ReadPair(Start, k, v);
      assert [k] == props[..1];
    } else {
      var q := props[..n - 2];
      assert GoodProps(q) by {
        forall i | 0 <= i < |q| ensures q[i] == props[i] { }
      }
      ReadWritten(q);
      var s := Scan(false, true, false, false, q[|q| - 1], q[..|q| - 1]);
      var s' := s.(newLine := true);
      LineBreakRead(s);
      StepsAppend(Going(Start), WriteText(q), "\n");
      CommitLast(q);
      ReadPair(s', k, v);
      StepsAppend(Going(Start), WriteText(q) + "\n", PairLine(k, v));
      assert q + [k] == props[..n - 1];
    }
  }

  /** Reading what `_zPropWrite` wrote gives the same slots back, for keys
      and values the format can carry. */
  lemma ReadWriteRoundTrip(props: seq<string>)
    requires GoodProps(props)
    ensures ReadProps(WriteText(props)) == Read(props)
  {
    if |props| >= 2 {
      ReadWritten(props);
      var v := props[|props| - 1];
      assert GoodValue(v);
      assert props[..|props| - 1] + [v] == props;
    }
  }

  /** A separator where a key should start is a syntax error. */
  lemma EmptyKeyIsSyntax(c: char, rest: string)
    requires IsSeparator(c)
    ensures ReadProps([c] + rest) == Failed(Syntax)
  {
    assert Step(Going(Start), c) == Stopped(Syntax);
    StepsOne(Going(Start), c);
    StepsAppend(Going(Start), [c], rest);
    StepsStopped(Syntax, rest);
  }

  /** A line holding a key and no separator is a syntax error once its line
      break is read, even on the first line, where blanks and comment marks
      count as key characters. */
  lemma BareKeyIsSyntax(k: string, b: char, rest: string)
    requires |k| > 0 && forall i :: 0 <= i < |k| ==> !IsSeparator(k[i]) && !IsLineBreak(k[i])
    requires IsLineBreak(b)
    ensures ReadProps(k + [b] + rest) == Failed(Syntax)
  {
    var s1 := Scan(true, false, false, false, [k[0]], []);
    assert Step(Going(Start), k[0]) == Going(s1);
    StepsOne(Going(Start), k[0]);
    KeyChars(s1, k[1..]);
    assert [k[0]] + k[1..] == k;
    StepsAppend(Going(Start), [k[0]], k[1..]);
    var s2 := s1.(copied := k);
    assert Step(Going(s2), b) == Stopped(Syntax);
    StepsOne(Going(s2), b);
    StepsAppend(Going(Start), k, [b]);
    StepsAppend(Going(Start), k + [b], rest);
    StepsStopped(Syntax, rest);
  }

  /** Reading the text written for some good pairs and a line break: the
      last value waits to be added at the next character. */
  lemma ReadWrittenLine(props: seq<string>)
    requires GoodProps(props) && |props| >= 2
    ensures Steps(Going(Start), WriteText(props) + "\n").Going?
    ensures Commit(Steps(Going(Start), WriteText(props) + "\n").scan) == Scan(false, false, true, false, [], props)
  {
    var n := |props|;
    var s := Scan(false, true, false, false, props[n - 1], props[..n - 1]);
    ReadWritten(props);
    StepsAppend(Going(Start), WriteText(props), "\n");
    LineBreakRead(s);
    CommitLast(props);
  }

  /** A line break read while no key is being copied. */
  lemma LineBreakRead(s: Scan)
    requires !s.copyKey && !s.newLine
    ensures Steps(Going(s), "\n") == Going(s.(comment := false, newLine := true))
  {
    assert Step(Going(s), '\n') == Going(s.(comment := false, newLine := true));
    StepsOne(Going(s), '\n');
  }

  /** After the line break that ends the last value written, the value is
      added at the next character. */
  lemma CommitLast(props: seq<string>)
    requires GoodProps(props) && |props| >= 2
    ensures Commit(Scan(false, true, true, false, props[|props| - 1], props[..|props| - 1]))
      == Scan(false, false, true, false, [], props)
  {
    var n := |props|;
    assert GoodValue(props[n - 1]);
    assert props[..n - 1] + [props[n - 1]] == props;
  }

  /** A last line holding a key and no separator is dropped without an
      error. */
  lemma BareKeyAtEndDropped(props: seq<string>, k: string)
    requires GoodProps(props) && |props| >= 2 && GoodKey(k)
    ensures ReadProps(WriteText(props) + "\n" + k) == Read(props)
  {
    ReadWrittenLine(props);
    var s' := Steps(Going(Start), WriteText(props) + "\n").scan;
    var s1 := Scan(true, false, false, false, [k[0]], props);
    assert Step(Going(s'), k[0]) == Going(s1);
    StepsOne(Going(s'), k[0]);
    KeyChars(s1, k[1..]);
    assert [k[0]] + k[1..] == k;
    StepsAppend(Going(s'), [k[0]], k[1..]);
    StepsAppend(Going(Start), WriteText(props) + "\n", k);
  }

  /** After a line break, a line that starts with a comment mark is skipped
      whole. */
  lemma CommentLineSkipped(props: seq<string>, m: char, t: string)
    requires GoodProps(props) && |props| >= 2 && IsCommentMark(m)
    requires forall i :: 0 <= i < |t| ==> !IsLineBreak(t[i])
    ensures ReadProps(WriteText(props) + "\n" + ([m] + t)) == Read(props)
  {
    ReadWrittenLine(props);
    var s' := Steps(Going(Start), WriteText(props) + "\n").scan;
    var c := Scan(false, false, false, true, [], props);
    var r := Scan(false, false, true, false, [], props);
    CommentMarkStep(props, m);
    assert Step(Going(s'), m) == Process(r, m);
    StepsOne(Going(s'), m);
    CommentRest(c, t);
    StepsAppend(Going(s'), [m], t);
    StepsAppend(Going(Start), WriteText(props) + "\n", [m] + t);
  }

  /** After a line break, blanks before a key are skipped. */
  lemma LeadingBlankSkipped(props: seq<string>, b: char, k: string, v: string)
    requires GoodProps(props) && |props| >= 2 && IsBlank(b)
    requires GoodKey(k) && GoodValue(v)
    ensures ReadProps(WriteText(props) + "\n" + ([b] + PairLine(k, v))) == Read(props + [k, v])
  {
    ReadWrittenLine(props);
    var s' := Steps(Going(Start), WriteText(props) + "\n").scan;
    var r := Scan(false, false, true, false, [], props);
    assert Step(Going(s'), b) == Going(r);
    StepsOne(Going(s'), b);
    ReadPair(r, k, v);
    StepsAppend(Going(s'), [b], PairLine(k, v));
    StepsAppend(Going(Start), WriteText(props) + "\n", [b] + PairLine(k, v));
    assert props + [k] + [v] == props + [k, v];
  }

  /** On the first line, where no line break has been seen, a leading
      blank or comment mark is the first character of the key. */
  lemma FirstLineKeepsLeadingMark(m: char, k: string, v: string)
    requires IsCommentMark(m) || IsBlank(m)
    requires GoodKey(k) && GoodValue(v)
    ensures ReadProps(PairLine([m] + k, v)) == Read([[m] + k, v])
  {
    var mk := [m] + k;
    forall i | 0 <= i < |mk| ensures mk[i] != Nul && !IsSeparator(mk[i]) && !IsLineBreak(mk[i]) {
      if i > 0 { assert mk[i] == k[i - 1]; }
    }
    ReadPair(Start, mk, v);
  }

  /** A comment mark right after a line break starts a comment. */
  lemma CommentMarkStep(props: seq<string>, m: char)
    requires IsCommentMark(m)
    ensures Process(Scan(false, false, true, false, [], props), m) == Going(Scan(false, false, false, true, [], props))
  {
    assert !IsLineBreak(m) && !IsBlank(m);
  }

  /** The rest of a comment line is skipped, whatever it holds. */
  lemma {:induction false} CommentRest(s: Scan, t: string)
    requires s.comment && !s.newLine && !s.copyKey && !s.copyValue
    requires forall i :: 0 <= i < |t| ==> !IsLineBreak(t[i])
    ensures Steps(Going(s), t) == Going(s)
    decreases |t|
  {
    if t != [] {
      assert Step(Going(s), t[0]) == Going(s);
      CommentRest(s, t[1..]);
    }
  }
}
