/** The string operations the line-oriented policy format is built from:
    Rust's `char::is_whitespace` and `str::trim`, `str::split(',')`,
    `[String]::join(",")` and `BufRead::lines`. */
module Strings {

  /** `char::is_whitespace`: the characters with the Unicode White_Space
      property. */
  predicate IsWhitespace(c: char) {
    var n := c as int;
    (0x09 <= n <= 0x0D) || n == 0x20 || n == 0x85 || n == 0xA0 || n == 0x1680
    || (0x2000 <= n <= 0x200A) || n == 0x2028 || n == 0x2029 || n == 0x202F
    || n == 0x205F || n == 0x3000
  }

  /** Neither starts nor ends with whitespace. */
  predicate Trimmed(s: string) {
    s == [] || (!IsWhitespace(s[0]) && !IsWhitespace(s[|s| - 1]))
  }

  function TrimStart(s: string): (r: string)
    ensures |r| <= |s| && r == s[|s| - |r|..]
    ensures r == [] || !IsWhitespace(r[0])
    ensures forall k :: 0 <= k < |s| - |r| ==> IsWhitespace(s[k])
  {
    if |s| > 0 && IsWhitespace(s[0]) then TrimStart(s[1..]) else s
  }

  function TrimEnd(s: string): (r: string)
    ensures |r| <= |s| && r == s[..|r|]
    ensures r == [] || !IsWhitespace(r[|r| - 1])
    ensures forall k :: |r| <= k < |s| ==> IsWhitespace(s[k])
  {
    if |s| > 0 && IsWhitespace(s[|s| - 1]) then TrimEnd(s[..|s| - 1]) else s
  }

  /** `str::trim`: the part of `s` left after removing its leading and
      trailing whitespace. */
  function Trim(s: string): (r: string)
    ensures Trimmed(r)
    ensures |r| <= |s|
    ensures r == [] <==> forall k :: 0 <= k < |s| ==> IsWhitespace(s[k])
  {
    TrimEnd(TrimStart(s))
  }

  /** A string that has nothing to trim is its own trim, and conversely. */
  lemma TrimFixpoint(s: string)
    ensures Trim(s) == s <==> Trimmed(s)
  {
  }

  /** The single space the serialiser puts after a type's comma is removed
      again by `trim`. */
  lemma TrimAfterSpace(s: string)
    requires Trimmed(s)
    ensures Trim([' '] + s) == s
  {
    assert ([' '] + s)[1..] == s;
  }

  /** Number of occurrences of `c` in `s`. */
  function Count(s: string, c: char): nat {
    if s == [] then 0 else (if s[0] == c then 1 else 0) + Count(s[1..], c)
  }

  /** Index of the first `c` in `s`, or `|s|` when there is none. */
  function IndexOf(s: string, c: char): (i: nat)
    ensures i <= |s|
    ensures i < |s| ==> s[i] == c
    ensures forall k :: 0 <= k < i ==> s[k] != c
  {
    if s == [] then 0 else if s[0] == c then 0 else 1 + IndexOf(s[1..], c)
  }

  /** `str::split(sep)`: the pieces between occurrences of `sep`; an empty
      string gives one empty piece. */
  function Split(s: string, sep: char): (r: seq<string>)
    ensures |r| == Count(s, sep) + 1
    ensures forall i :: 0 <= i < |r| ==> sep !in r[i]
    ensures r[0] == s[..IndexOf(s, sep)]
    decreases |s|
  {
    if s == [] then [""]
    else if s[0] == sep then [""] + Split(s[1..], sep)
    else
      var rest := Split(s[1..], sep);
      [[s[0]] + rest[0]] + rest[1..]
  }

  /** `join(sep)`: the parts with one `sep` between neighbours. */
  function Join(parts: seq<string>, sep: char): string {
    if |parts| == 0 then ""
    else if |parts| == 1 then parts[0]
    else parts[0] + [sep] + Join(parts[1..], sep)
  }

  /** Joining `n` separator-free parts puts exactly `n - 1` separators
      into the text. */
  lemma {:induction false} JoinSeparators(parts: seq<string>, sep: char)
    requires |parts| >= 1 && forall i :: 0 <= i < |parts| ==> sep !in parts[i]
    ensures Count(Join(parts, sep), sep) == |parts| - 1
    decreases |parts|
  {
    if |parts| == 1 {
      CountAbsent(parts[0], sep);
    } else {
      var first, rest := parts[0], Join(parts[1..], sep);
      JoinSeparators(parts[1..], sep);
      CountAbsent(first, sep);
      CountAppend(first, [sep], sep);
      CountAppend(first + [sep], rest, sep);
      assert Count([sep], sep) == 1;
    }
  }

  /** Joining the pieces of a split gives back the string. */
  lemma {:induction false} JoinSplit(s: string, sep: char)
    ensures Join(Split(s, sep), sep) == s
    decreases |s|
  {
    if s == [] {
    } else {
      var rest := Split(s[1..], sep);
      JoinSplit(s[1..], sep);
      if s[0] == sep {
        assert ([""] + rest)[1..] == rest;
        assert s == [sep] + s[1..];
      } else if |rest| == 1 {
        assert s == [s[0]] + s[1..];
      } else {
        var r := [[s[0]] + rest[0]] + rest[1..];
        assert r[1..] == rest[1..];
        assert s == [s[0]] + s[1..];
      }
    }
  }

  /** A split is undone by a join: splitting on a separator that none of
      the parts contains gives the parts back. */
  lemma {:induction false} SplitJoin(parts: seq<string>, sep: char)
    requires |parts| >= 1
    requires forall i :: 0 <= i < |parts| ==> sep !in parts[i]
    ensures Split(Join(parts, sep), sep) == parts
    decreases |parts|
  {
    if |parts| == 1 {
      SplitNoSeparator(parts[0], sep);
    } else {
      SplitJoin(parts[1..], sep);
      SplitAfterFirst(parts[0], Join(parts[1..], sep), sep);
      assert parts == [parts[0]] + parts[1..];
    }
  }

  lemma {:induction false} SplitNoSeparator(a: string, sep: char)
    requires sep !in a
    ensures Split(a, sep) == [a]
    decreases |a|
  {
    if a != [] {
      SplitNoSeparator(a[1..], sep);
      assert a == [a[0]] + a[1..];
    }
  }

  /** Splitting `a + sep + b` where `a` holds no separator. */
  lemma {:induction false} SplitAfterFirst(a: string, b: string, sep: char)
    requires sep !in a
    ensures Split(a + [sep] + b, sep) == [a] + Split(b, sep)
    decreases |a|
  {
    var s := a + [sep] + b;
    if a == [] {
      assert s == [sep] + b;
      assert s[1..] == b;
    } else {
      assert s[1..] == a[1..] + [sep] + b;
      SplitAfterFirst(a[1..], b, sep);
      assert a == [a[0]] + a[1..];
    }
  }

  /** A prefix glued to the front of a join belongs to its first part. */
  lemma JoinWithPrefix(p: string, parts: seq<string>, sep: char)
    requires |parts| >= 1
    ensures p + Join(parts, sep) == Join([p + parts[0]] + parts[1..], sep)
  {
    var q := [p + parts[0]] + parts[1..];
    if |parts| > 1 {
      assert q[1..] == parts[1..];
    }
  }

  /** A join of parts free of `c`, on a separator other than `c`, is free
      of `c`. */
  lemma {:induction false} JoinAvoids(parts: seq<string>, sep: char, c: char)
    requires sep != c
    requires forall i :: 0 <= i < |parts| ==> c !in parts[i]
    ensures c !in Join(parts, sep)
    decreases |parts|
  {
    if |parts| > 1 {
      JoinAvoids(parts[1..], sep, c);
    }
  }

  /** A join ends with its last part, preceded by the separator when
      there are several parts. */
  lemma {:induction false} JoinEnd(parts: seq<string>, sep: char)
    requires |parts| >= 1
    ensures var j, l := Join(parts, sep), parts[|parts| - 1];
      |l| <= |j| && j[|j| - |l|..] == l
      && (|parts| > 1 ==> |j| > |l| && j[|j| - |l| - 1] == sep)
    decreases |parts|
  {
    if |parts| > 1 {
      JoinEnd(parts[1..], sep);
    }
  }

  // ---- Line reading and writing ----------------------------------------

  /** Drops one trailing carriage return. */
  function StripCarriageReturn(l: string): string {
    if |l| > 0 && l[|l| - 1] == '\r' then l[..|l| - 1] else l
  }

  /** `BufRead::lines`: the text cut at each '\n'; a '\r' just before a
      '\n' is dropped with it, and a final '\n' does not start an empty
      last line. */
  function TextLines(text: string): (ls: seq<string>)
    ensures text != [] ==> |ls| >= 1
    ensures forall i :: 0 <= i < |ls| ==> '\n' !in ls[i]
    decreases |text|
  {
    if text == [] then []
    else
      var i := IndexOf(text, '\n');
      if i == |text| then [text]
      else [StripCarriageReturn(text[..i])] + TextLines(text[i + 1..])
  }

  /** Each line followed by '\n', as a writer of a line-oriented file emits
      it. */
  function JoinLines(ls: seq<string>): (text: string)
    ensures |text| >= |ls|
  {
    if ls == [] then "" else ls[0] + "\n" + JoinLines(ls[1..])
  }

  lemma {:induction false} JoinLinesAppend(a: seq<string>, b: seq<string>)
    ensures JoinLines(a + b) == JoinLines(a) + JoinLines(b)
    decreases |a|
  {
    if a != [] {
      assert (a + b)[1..] == a[1..] + b;
      JoinLinesAppend(a[1..], b);
    } else {
      assert a + b == b;
    }
  }

  lemma {:induction false} CountAppend(a: string, b: string, c: char)
    ensures Count(a + b, c) == Count(a, c) + Count(b, c)
    decreases |a|
  {
    if a == [] {
      assert a + b == b;
    } else {
      assert (a + b)[1..] == a[1..] + b;
      CountAppend(a[1..], b, c);
    }
  }

  lemma {:induction false} CountAbsent(s: string, c: char)
    requires c !in s
    ensures Count(s, c) == 0
    decreases |s|
  {
    if s != [] {
      CountAbsent(s[1..], c);
    }
  }

  /** Written lines give an empty text only when there are none, and a
      text that ends with '\n' otherwise. */
  lemma {:induction false} JoinLinesEnd(ls: seq<string>)
    ensures var text := JoinLines(ls);
      (text == [] <==> ls == []) && (text != [] ==> text[|text| - 1] == '\n')
    decreases |ls|
  {
    if ls != [] {
      JoinLinesEnd(ls[1..]);
    }
  }

  /** Written lines that hold no '\n' give a text with one '\n' per
      line. */
  lemma {:induction false} JoinLinesNewlines(ls: seq<string>)
    requires forall i :: 0 <= i < |ls| ==> '\n' !in ls[i]
    ensures Count(JoinLines(ls), '\n') == |ls|
    decreases |ls|
  {
    if ls != [] {
      var rest := JoinLines(ls[1..]);
      JoinLinesNewlines(ls[1..]);
      CountAbsent(ls[0], '\n');
      CountAppend(ls[0], "\n", '\n');
      CountAppend(ls[0] + "\n", rest, '\n');
      assert Count("\n", '\n') == 1;
    }
  }

  /** A line may be written and read back when it holds no '\n' and does
      not end with '\r'. */
  predicate SingleLine(l: string) {
    '\n' !in l && (|l| == 0 || l[|l| - 1] != '\r')
  }

  /** Reading back written lines gives the lines. */
  lemma {:induction false} TextLinesJoinLines(ls: seq<string>)
    requires forall i :: 0 <= i < |ls| ==> SingleLine(ls[i])
    ensures TextLines(JoinLines(ls)) == ls
    decreases |ls|
  {
    if ls != [] {
      var l, rest := ls[0], JoinLines(ls[1..]);
      var text := l + "\n" + rest;
      assert text[|l|] == '\n';
      assert forall k :: 0 <= k < |l| ==> text[k] == l[k];
      assert IndexOf(text, '\n') == |l|;
      assert text[..|l|] == l;
      assert text[|l| + 1..] == rest;
      TextLinesJoinLines(ls[1..]);
      assert ls == [ls[0]] + ls[1..];
    }
  }
}
