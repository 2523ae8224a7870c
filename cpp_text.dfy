/** The text side of the C++ class `Properties` (cpp/Properties.cpp): the
    escape codec `Convert` / `ResolveString`, the blank-key test `IsEmpty`,
    the logical-line reader `ReadLine` over the characters of a file, and the
    specification of the per-line key/value state machine `AddProperty`. */
module CppText {
  import opened Options
  import opened Chars
  import opened Seqs

  const FormFeed: char := 12 as char

  // ---------------------------------------------------------------------
  // Escape codec

  /** The text `Convert` emits for the escape `\c`: one control character
      for `t`, `f`, `r`, `n`, and nothing for every other `c`. */
  function ControlFor(c: char): string {
    if c == 't' then ['\t']
    else if c == 'f' then [FormFeed]
    else if c == 'r' then ['\r']
    else if c == 'n' then ['\n']
    else []
  }

  /** What `Properties::Convert` computes: escapes turned into control
      characters, every other character copied, a trailing lone backslash
      dropped. */
  function Decode(s: string): (r: string)
    ensures |r| <= |s|
  {
    if s == [] then []
    else if s[0] != '\\' then [s[0]] + Decode(s[1..])
    else if |s| == 1 then []
    else ControlFor(s[1]) + Decode(s[2..])
  }

  /** The text `ResolveString` writes for one character. */
  function EscapeOf(c: char): string {
    if c == '\t' then ['\\', 't']
    else if c == FormFeed then ['\\', 'f']
    else if c == '\r' then ['\\', 'r']
    else if c == '\n' then ['\\', 'n']
    else [c]
  }

  /** What `Properties::ResolveString` writes for a value. */
  function Encode(s: string): (r: string)
    ensures |s| <= |r| <= 2 * |s|
    ensures forall i :: 0 <= i < |r| ==> !IsLineBreak(r[i]) && r[i] != '\t' && r[i] != FormFeed
  {
    if s == [] then [] else EscapeOf(s[0]) + Encode(s[1..])
  }

  /** Text without a backslash is copied unchanged by `Convert`. */
  lemma {:induction false} DecodeWithoutBackslash(s: string)
    requires '\\' !in s
    ensures Decode(s) == s
  {
    if s != [] {
      assert '\\' !in s[1..];
      DecodeWithoutBackslash(s[1..]);
    }
  }

  /** Decoding undoes the escape of one character that is not a backslash. */
  lemma DecodeEscapeOf(c: char, t: string)
    requires c != '\\'
    ensures Decode(EscapeOf(c) + t) == [c] + Decode(t)
  {
    var s := EscapeOf(c) + t;
    if |EscapeOf(c)| == 2 {
      assert s[0] == '\\' && s[2..] == t;
    } else {
      assert s[0] == c && s[1..] == t;
    }
  }

  /** `Convert(ResolveString(s)) == s` for every value without a backslash. */
  lemma {:induction false} DecodeEncode(s: string)
    requires '\\' !in s
    ensures Decode(Encode(s)) == s
  {
    if s != [] {
      assert '\\' !in s[1..];
      DecodeEncode(s[1..]);
      DecodeEscapeOf(s[0], Encode(s[1..]));
    }
  }

  /** The round trip fails for a backslash: `ResolveString` leaves it as it
      is, and `Convert` reads it as the start of an escape. */
  lemma BackslashDoesNotRoundTrip()
    ensures Encode(['\\', 'n']) == ['\\', 'n']
    ensures Decode(Encode(['\\', 'n'])) == ['\n']
    ensures Decode(['\\', '\\']) == []
  {
    assert Encode(['n']) == ['n'];
    assert Encode(['\\', 'n'])[2..] == [];
  }

  /** The encoded text of a value whose ends are not spaces starts and ends
      with a non-blank, so trimming leaves it as it is. */
  lemma EncodeEnds(s: string)
    requires s != [] && s[0] != ' ' && s[|s| - 1] != ' '
    ensures Encode(s) != [] && !IsBlank(Encode(s)[0]) && !IsBlank(Encode(s)[|Encode(s)| - 1])
  {
    EncodeLast(s);
  }

  lemma {:induction false} EncodeLast(s: string)
    requires s != []
    ensures Encode(s)[|Encode(s)| - 1] == EscapeOf(s[|s| - 1])[|EscapeOf(s[|s| - 1])| - 1]
  {
    if |s| > 1 {
      EncodeLast(s[1..]);
      assert s[1..][|s| - 2] == s[|s| - 1];
    }
  }

  lemma DecodeFrom(s: string, i: nat)
    requires i < |s|
    ensures Decode(s[i..]) ==
      if s[i] != '\\' then [s[i]] + Decode(s[i + 1..])
      else if i + 1 == |s| then []
      else ControlFor(s[i + 1]) + Decode(s[i + 2..])
  {
    assert s[i..][1..] == s[i + 1..];
    if i + 1 < |s| {
      assert s[i..][2..] == s[i + 2..];
    }
  }

  lemma EncodeFrom(s: string, i: nat)
    requires i < |s|
    ensures Encode(s[i..]) == EscapeOf(s[i]) + Encode(s[i + 1..])
  {
    assert s[i..][1..] == s[i + 1..];
  }

  /** The `switch` on the character after a backslash in `Convert`. */
  method AppendControl(str: string, c: char) returns (r: string)
    ensures r == str + ControlFor(c)
  {
    r := str;
    if c == 't' {
      r := r + ['\t'];
    } else if c == 'f' {
      r := r + [FormFeed];
    } else if c == 'r' {
      r := r + ['\r'];
    } else if c == 'n' {
      r := r + ['\n'];
    }
  }

  /** `Properties::Convert`: the escapes of a stored value turned into the
      characters they stand for. */
  method Convert(value: string) returns (str: string)
    ensures str == Decode(value)
  {
    str := "";
    var i := 0;
    while i < |value|
      invariant 0 <= i <= |value|
      invariant str + Decode(value[i..]) == Decode(value)
    {
      DecodeFrom(value, i);
      if value[i] == '\\' {
        if i + 1 == |value| {
          break;
        }
        i := i + 1;
        ghost var before := str;
        str := AppendControl(str, value[i]);
        AppendAssoc(before, ControlFor(value[i]), Decode(value[i + 1..]), str);
        i := i + 1;
        continue;
      }
      ghost var before := str;
      str := str + [value[i]];
      AppendAssoc(before, [value[i]], Decode(value[i + 1..]), str);
      i := i + 1;
    }
  }

  /** The `switch` of `ResolveString` on one character. */
  method WriteEscape(out: string, c: char) returns (written: string)
    ensures written == out + EscapeOf(c)
  {
    if c == '\t' {
      written := out + ['\\', 't'];
    } else if c == FormFeed {
      written := out + ['\\', 'f'];
    } else if c == '\r' {
      written := out + ['\\', 'r'];
    } else if c == '\n' {
      written := out + ['\\', 'n'];
    } else {
      written := out + [c];
    }
  }

  /** Writes the escaped form of `value` after what `out` already holds. */
  method ResolveString(out: string, value: string) returns (written: string)
    ensures written == out + Encode(value)
  {
    written := out;
    var i := 0;
    while i < |value|
      invariant 0 <= i <= |value|
      invariant written + Encode(value[i..]) == out + Encode(value)
    {
      EncodeFrom(value, i);
      ghost var before := written;
      written := WriteEscape(written, value[i]);
      AppendAssoc(before, EscapeOf(value[i]), Encode(value[i + 1..]), written);
      i := i + 1;
    }
  }

  /** `Properties::IsEmpty`: true when the key has no character but blanks. */
  method IsEmpty(key: string) returns (empty: bool)
    ensures empty <==> AllBlank(key)
  {
    var i := 0;
    while i < |key|
      invariant 0 <= i <= |key|
      invariant AllBlank(key[..i])
    {
      if !IsBlank(key[i]) {
        return false;
      }
      assert key[..i + 1] == key[..i] + [key[i]];
      i := i + 1;
    }
    assert key[..i] == key;
    return true;
  }

  // ---------------------------------------------------------------------
  // Line reader

  /** The result of one `ReadLine` call: the line, the returned flag, and
      the position in the file where the next call starts. */
  datatype LineRead = LineRead(line: string, more: bool, next: nat)

  predicate IsCommentStart(c: char) {
    c == '#' || c == ';'
  }

  /** What one `ReadLine` call reads from position `pos`: leading blanks
      skipped; a line whose first non-blank is `#` or `;` dropped together
      with its line break, the read going on with the next physical line;
      otherwise the rest of the physical line. The flag is false when the
      read stopped at the end of the file. */
  function ReadLogical(text: string, pos: nat): (r: LineRead)
    requires pos <= |text|
    ensures pos <= r.next <= |text|
    ensures (r.more || r.line != []) ==> pos < r.next
    decreases |text| - pos, 1
  {
    var b := SkipBlanks(text, pos);
    if b == |text| then LineRead([], false, |text|)
    else if IsLineBreak(text[b]) then LineRead([], true, b + 1)
    else if IsCommentStart(text[b]) then AfterComment(text, b)
    else CopyRest(text, b)
  }

  /** The rest of a read that is inside a comment at position `i`. */
  function AfterComment(text: string, i: nat): (r: LineRead)
    requires i <= |text|
    ensures i <= r.next <= |text|
    ensures (r.more || r.line != []) ==> i < r.next
    decreases |text| - i, 0
  {
    var e := LineEnd(text, i);
    if e == |text| then LineRead([], false, |text|) else ReadLogical(text, e + 1)
  }

  /** The rest of a read that copies the physical line starting at `b`. */
  function CopyRest(text: string, b: nat): (r: LineRead)
    requires b < |text|
  {
    var e := LineEnd(text, b);
    if e == |text| then LineRead(text[b..e], false, e) else LineRead(text[b..e], true, e + 1)
  }

  /** The line a read returns is one physical line's text: it holds no
      line break and starts with neither a blank nor a comment start. The
      flag is false when the read stopped at the end of the file, and true
      when it stopped on a line break, which it consumed. */
  lemma {:induction false} ReadLogicalLine(text: string, pos: nat)
    requires pos <= |text|
    ensures forall k :: 0 <= k < |ReadLogical(text, pos).line| ==> !IsLineBreak(ReadLogical(text, pos).line[k])
    ensures ReadLogical(text, pos).line != [] ==>
      !IsBlank(ReadLogical(text, pos).line[0]) && !IsCommentStart(ReadLogical(text, pos).line[0])
    ensures !ReadLogical(text, pos).more ==> ReadLogical(text, pos).next == |text|
    ensures ReadLogical(text, pos).more ==> IsLineBreak(text[ReadLogical(text, pos).next - 1])
    decreases |text| - pos
  {
    var b := SkipBlanks(text, pos);
    SkipBlanksShape(text, pos);
    if b < |text| && !IsLineBreak(text[b]) {
      var e := LineEnd(text, b);
      LineEndShape(text, b);
      if IsCommentStart(text[b]) && e < |text| {
        ReadLogicalLine(text, e + 1);
      }
    }
  }

  /** A comment line is invisible: the read goes on after its line break. */
  lemma CommentLineSkipped(text: string, pos: nat, e: nat)
    requires pos < e < |text|
    requires AllBlank(text[pos..SkipBlanks(text, pos)]) && SkipBlanks(text, pos) < e
    requires IsCommentStart(text[SkipBlanks(text, pos)])
    requires forall k :: pos <= k < e ==> !IsLineBreak(text[k])
    requires IsLineBreak(text[e])
    ensures ReadLogical(text, pos) == ReadLogical(text, e + 1)
  {
    LineEndAt(text, SkipBlanks(text, pos), e);
  }

  /** A blank at the start of a line is skipped. */
  lemma ReadBlank(text: string, i: nat)
    requires i < |text| && IsBlank(text[i])
    ensures ReadLogical(text, i) == ReadLogical(text, i + 1)
  {
    assert SkipBlanks(text, i) == SkipBlanks(text, i + 1);
  }

  /** A line break before anything else ends an empty line. */
  lemma ReadEmptyLine(text: string, i: nat)
    requires i < |text| && IsLineBreak(text[i])
    ensures ReadLogical(text, i) == LineRead([], true, i + 1)
  {
    assert SkipBlanks(text, i) == i;
  }

  /** A comment start before anything else turns the line into a comment. */
  lemma ReadCommentStart(text: string, i: nat)
    requires i < |text| && IsCommentStart(text[i])
    ensures ReadLogical(text, i) == AfterComment(text, i + 1)
  {
    assert SkipBlanks(text, i) == i;
    assert LineEnd(text, i) == LineEnd(text, i + 1);
  }

  /** Any other first character starts the copied line. */
  lemma ReadFirstKept(text: string, i: nat)
    requires i < |text|
    requires !IsBlank(text[i]) && !IsLineBreak(text[i]) && !IsCommentStart(text[i])
    ensures ReadLogical(text, i) == CopyRest(text, i)
  {
    assert SkipBlanks(text, i) == i;
  }

  /** One character read inside a comment. */
  lemma ReadInComment(text: string, i: nat)
    requires i < |text|
    ensures !IsLineBreak(text[i]) ==> AfterComment(text, i) == AfterComment(text, i + 1)
    ensures IsLineBreak(text[i]) ==> AfterComment(text, i) == ReadLogical(text, i + 1)
  {
  }

  /** Where `ReadLine` stands after reading up to `next`: still skipping
      leading blanks, inside a comment, or copying the line that started at
      `start`; in each case the read it still has to do finishes the read
      that began at `pos`. */
  ghost predicate Reading(text: string, pos: nat, begin: bool, comment: bool, line: string, start: nat, next: nat) {
    pos <= next <= |text|
    && (begin ==> !comment && line == [] && ReadLogical(text, pos) == ReadLogical(text, next))
    && (comment ==> !begin && line == [] && ReadLogical(text, pos) == AfterComment(text, next))
    && (!begin && !comment ==>
          start < next && next <= LineEnd(text, start) && line == text[start..next]
          && ReadLogical(text, pos) == CopyRest(text, start))
  }

  /** The end of the file ends the read without a line break. */
  lemma ReadAtEnd(text: string, pos: nat, begin: bool, comment: bool, line: string, start: nat)
    requires Reading(text, pos, begin, comment, line, start, |text|)
    ensures ReadLogical(text, pos) == LineRead(line, false, |text|)
  {
  }

  /** A line break outside a comment ends the read. */
  lemma ReadAtBreak(text: string, pos: nat, begin: bool, line: string, start: nat, i: nat)
    requires i < |text| && IsLineBreak(text[i])
    requires Reading(text, pos, begin, false, line, start, i)
    ensures ReadLogical(text, pos) == LineRead(line, true, i + 1)
  {
    if begin {
      ReadEmptyLine(text, i);
    } else {
      LineEndHere(text, start, i);
    }
  }

  /** A line break inside a comment starts the next line afresh. */
  lemma ReadCommentEnd(text: string, pos: nat, start: nat, i: nat)
    requires i < |text| && IsLineBreak(text[i])
    requires Reading(text, pos, false, true, [], start, i)
    ensures Reading(text, pos, true, false, [], start, i + 1)
  {
    ReadInComment(text, i);
  }

  /** A leading blank is skipped. */
  lemma ReadBlankStep(text: string, pos: nat, start: nat, i: nat)
    requires i < |text| && IsBlank(text[i])
    requires Reading(text, pos, true, false, [], start, i)
    ensures Reading(text, pos, true, false, [], start, i + 1)
  {
    ReadBlank(text, i);
  }

  /** A leading comment start opens a comment. */
  lemma ReadCommentStep(text: string, pos: nat, start: nat, i: nat)
    requires i < |text| && IsCommentStart(text[i])
    requires Reading(text, pos, true, false, [], start, i)
    ensures Reading(text, pos, false, true, [], start, i + 1)
  {
    ReadCommentStart(text, i);
  }

  /** Any other character inside a comment is dropped. */
  lemma ReadCommentChar(text: string, pos: nat, start: nat, i: nat)
    requires i < |text| && !IsLineBreak(text[i])
    requires Reading(text, pos, false, true, [], start, i)
    ensures Reading(text, pos, false, true, [], start, i + 1)
  {
    ReadInComment(text, i);
  }

  /** The first kept character starts the copied line. */
  lemma ReadFirstStep(text: string, pos: nat, line: string, start: nat, i: nat)
    requires i < |text| && !IsBlank(text[i]) && !IsLineBreak(text[i]) && !IsCommentStart(text[i])
    requires Reading(text, pos, true, false, line, start, i)
    ensures Reading(text, pos, false, false, line + [text[i]], i, i + 1)
  {
    ReadFirstKept(text, i);
    LineEndPast(text, i, i);
    assert text[i..i + 1] == [text[i]];
  }

  /** Each further character of the line is copied. */
  lemma ReadKeepStep(text: string, pos: nat, line: string, start: nat, i: nat)
    requires i < |text| && !IsLineBreak(text[i])
    requires Reading(text, pos, false, false, line, start, i)
    ensures Reading(text, pos, false, false, line + [text[i]], start, i + 1)
  {
    LineEndPast(text, start, i);
    SliceSnoc(text, start, i);
  }

  /** `Properties::ReadLine` over the characters of the file, `pos` being
      the stream position. */
  method ReadLine(text: string, pos: nat) returns (line: string, more: bool, next: nat)
    requires pos <= |text|
    ensures LineRead(line, more, next) == ReadLogical(text, pos)
  {
    var begin, comment := true, false;
    line := "";
    next := pos;
    ghost var start: nat := pos;
    while true
      invariant Reading(text, pos, begin, comment, line, start, next)
      decreases |text| - next
    {
      if next == |text| {
        ReadAtEnd(text, pos, begin, comment, line, start);
        more := false;
        return;
      }
      var c := text[next];
      next := next + 1;
      if IsLineBreak(c) {
        if comment {
          ReadCommentEnd(text, pos, start, next - 1);
          begin, comment := true, false;
          continue;
        }
        ReadAtBreak(text, pos, begin, line, start, next - 1);
        more := true;
        return;
      }
      if begin {
        begin := IsBlank(c);
        if begin {
          ReadBlankStep(text, pos, start, next - 1);
          continue;
        } else if IsCommentStart(c) {
          ReadCommentStep(text, pos, start, next - 1);
          comment := true;
        } else {
          ReadFirstStep(text, pos, line, start, next - 1);
          start := next - 1;
        }
      } else if comment {
        ReadCommentChar(text, pos, start, next - 1);
      } else {
        ReadKeepStep(text, pos, line, start, next - 1);
      }
      if !comment {
        line := line + [c];
      }
    }
  }

  // ---------------------------------------------------------------------
  // Key/value split of one logical line

  /** Position `i` ends the key: a separator, or a blank directly followed
      by a character that is neither blank nor a separator. */
  predicate SplitsAt(line: string, i: nat)
    requires i < |line|
  {
    IsSeparator(line[i])
    || (IsBlank(line[i]) && i + 1 < |line| && !IsBlank(line[i + 1]) && !IsSeparator(line[i + 1]))
  }

  /** The first position at or after `from` that ends the key, or `|line|`. */
  function FirstSplit(line: string, from: nat): (r: nat)
    requires from <= |line|
    ensures from <= r <= |line|
    ensures r < |line| ==> SplitsAt(line, r)
    decreases |line| - from
  {
    if from == |line| || SplitsAt(line, from) then from else FirstSplit(line, from + 1)
  }

  /** No position before the first split ends the key. */
  lemma {:induction false} FirstSplitFirst(line: string, from: nat)
    requires from <= |line|
    ensures forall i :: from <= i < FirstSplit(line, from) ==> !SplitsAt(line, i)
    decreases |line| - from
  {
    if from < |line| && !SplitsAt(line, from) {
      FirstSplitFirst(line, from + 1);
    }
  }

  lemma {:induction false} FirstSplitAt(line: string, from: nat, s: nat)
    requires from <= s <= |line|
    requires forall i :: from <= i < s ==> !SplitsAt(line, i)
    requires s < |line| ==> SplitsAt(line, s)
    ensures FirstSplit(line, from) == s
    decreases s - from
  {
    if from < s {
      FirstSplitAt(line, from + 1, s);
    }
  }

  /** A property: its key and its value slot (None is the C++ nullptr). */
  datatype Entry = Entry(key: string, value: Option<string>)

  /** What `AddValue(v, true)` stores: nullptr for an empty value, the
      decoded text otherwise. */
  function StoredValue(v: string): Option<string> {
    if v == [] then None else Some(Decode(v))
  }

  /** The property `AddProperty` makes of one logical line, if any: the key
      is the text before the first split with its blanks dropped; a line
      without a split gives a valueless key; the value is the rest of the
      line with its outer blanks trimmed, then decoded. */
  function ParseLine(line: string): (r: Option<Entry>)
  {
    var s := FirstSplit(line, 0);
    var key := DropBlanks(line[..s]);
    if key == [] then None
    else if s == |line| then Some(Entry(key, None))
    else Some(Entry(key, StoredValue(Trim(line[s + 1..]))))
  }

  /** A parsed key is never empty and holds no blank and no separator. */
  lemma ParsedKeyPlain(line: string)
    requires ParseLine(line).Some?
    ensures PlainKey(ParseLine(line).value.key)
  {
    var s := FirstSplit(line, 0);
    var pre := line[..s];
    FirstSplitFirst(line, 0);
    DropBlanksShape(pre);
    forall i | 0 <= i < s ensures !IsSeparator(pre[i]) {
      assert !SplitsAt(line, i);
    }
  }

  /** The slots `AddProperty` appends for a parsed line. */
  function EntrySlots(e: Option<Entry>): (r: seq<Option<string>>)
    ensures |r| == 0 || |r| == 2
  {
    match e
    case None => []
    case Some(en) => [Some(en.key), en.value]
  }

  /** A line without a split: its blank-free text, if any, is a valueless key. */
  lemma ParseNoSplit(line: string)
    requires forall j :: 0 <= j < |line| ==> !SplitsAt(line, j)
    ensures ParseLine(line) == if DropBlanks(line) == [] then None else Some(Entry(DropBlanks(line), None))
  {
    FirstSplitAt(line, 0, |line|);
    assert line[..|line|] == line;
  }

  /** A line whose first split at `s` has an empty key adds nothing. */
  lemma ParseEmptyKey(line: string, s: nat)
    requires s < |line| && SplitsAt(line, s)
    requires forall j :: 0 <= j < s ==> !SplitsAt(line, j)
    requires DropBlanks(line[..s]) == []
    ensures ParseLine(line) == None
  {
    FirstSplitAt(line, 0, s);
  }

  /** A line whose first split at `s` has a key: the rest, trimmed, is the value. */
  lemma ParseSplit(line: string, s: nat)
    requires s < |line| && FirstSplit(line, 0) == s
    requires DropBlanks(line[..s]) != []
    ensures ParseLine(line) == Some(Entry(DropBlanks(line[..s]), StoredValue(Trim(line[s + 1..]))))
  {
  }

  /** A key whose characters are neither blanks nor separators. */
  predicate PlainKey(key: string) {
    key != [] && forall i :: 0 <= i < |key| ==> !IsBlank(key[i]) && !IsSeparator(key[i])
  }

  lemma {:induction false} DropBlanksOfPlain(s: string)
    requires forall i :: 0 <= i < |s| ==> !IsBlank(s[i])
    ensures DropBlanks(s) == s
  {
    if s != [] {
      DropBlanksOfPlain(s[..|s| - 1]);
    }
  }

  /** Only the first separator counts: `key=rest` and `key:rest` give the key
      and the trimmed, decoded `rest`, whatever separators `rest` holds. */
  lemma SplitAtFirstSeparator(key: string, sep: char, rest: string)
    requires PlainKey(key) && IsSeparator(sep)
    ensures ParseLine(key + [sep] + rest) == Some(Entry(key, StoredValue(Trim(rest))))
  {
    var line := key + [sep] + rest;
    forall i | 0 <= i < |key| ensures !SplitsAt(line, i) {
      assert line[i] == key[i];
    }
    FirstSplitAt(line, 0, |key|);
    assert line[..|key|] == key;
    assert line[|key| + 1..] == rest;
    DropBlanksOfPlain(key);
  }

  /** `key value`: one blank before a character that is neither blank nor a
      separator separates the key from the value. */
  lemma SplitAtBlank(key: string, rest: string)
    requires PlainKey(key)
    requires rest != [] && !IsBlank(rest[0]) && !IsSeparator(rest[0])
    ensures ParseLine(key + [' '] + rest) == Some(Entry(key, StoredValue(Trim(rest))))
  {
    var line := key + [' '] + rest;
    forall i | 0 <= i < |key| ensures !SplitsAt(line, i) {
      assert line[i] == key[i];
    }
    assert line[|key| + 1] == rest[0];
    FirstSplitAt(line, 0, |key|);
    assert line[..|key|] == key;
    assert line[|key| + 1..] == rest;
    DropBlanksOfPlain(key);
  }

  /** A line without any separator, such as `flag`, is a key without value. */
  lemma BareKey(key: string)
    requires PlainKey(key)
    ensures ParseLine(key) == Some(Entry(key, None))
  {
    forall i | 0 <= i < |key| ensures !SplitsAt(key, i) {
    }
    FirstSplitAt(key, 0, |key|);
    assert key[..|key|] == key;
    DropBlanksOfPlain(key);
  }

  /** A line that starts with a separator adds nothing. */
  lemma LeadingSeparator(line: string)
    requires line != [] && IsSeparator(line[0])
    ensures ParseLine(line) == None
  {
    FirstSplitAt(line, 0, 0);
  }
}
