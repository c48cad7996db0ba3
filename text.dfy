/** The string operations the renderer uses: String.prototype.trim,
    upperFirst (restricted to ASCII), String.prototype.split on one character
    and Array.prototype.join. Strings are sequences of characters. */
module Text {

  /** The characters String.prototype.trim removes: ECMAScript WhiteSpace
      and LineTerminator code points. */
  predicate IsWhitespace(c: char) {
    var n := c as int;
    (0x09 <= n <= 0x0D) || n == 0x20 || n == 0xA0 || n == 0x1680
    || (0x2000 <= n <= 0x200A) || n == 0x2028 || n == 0x2029 || n == 0x202F
    || n == 0x205F || n == 0x3000 || n == 0xFEFF
  }

  /** Drops leading whitespace: the result is a suffix of `s`, everything
      dropped is whitespace and the result does not start with whitespace. */
  function TrimStart(s: string): (r: string)
    ensures |r| <= |s| && r == s[|s| - |r|..]
    ensures r == [] || !IsWhitespace(r[0])
    ensures forall k :: 0 <= k < |s| - |r| ==> IsWhitespace(s[k])
  {
    if s != [] && IsWhitespace(s[0]) then TrimStart(s[1..]) else s
  }

  /** Drops trailing whitespace: the result is a prefix of `s`, everything
      dropped is whitespace and the result does not end with whitespace. */
  function TrimEnd(s: string): (r: string)
    ensures |r| <= |s| && r == s[..|r|]
    ensures r == [] || !IsWhitespace(r[|r| - 1])
    ensures forall k :: |r| <= k < |s| ==> IsWhitespace(s[k])
  {
    if s != [] && IsWhitespace(s[|s| - 1]) then TrimEnd(s[..|s| - 1]) else s
  }

  /** String.prototype.trim: the part of `s` left after dropping leading and
      then trailing whitespace, a contiguous piece of `s` that neither starts
      nor ends with whitespace; everything dropped after it is whitespace. */
  function Trim(s: string): (r: string)
    ensures r == [] || (!IsWhitespace(r[0]) && !IsWhitespace(r[|r| - 1]))
    ensures |r| <= |TrimStart(s)| && r == TrimStart(s)[..|r|]
    ensures forall k :: |r| <= k < |TrimStart(s)| ==> IsWhitespace(TrimStart(s)[k])
  {
    var t := TrimStart(s);
    var r := TrimEnd(t);
    assert r != [] ==> r[0] == t[0];
    r
  }

  /** Every character of the trimmed string comes from the input. */
  lemma TrimMembers(s: string)
    ensures forall c :: c in Trim(s) ==> c in s
  {
    var t := TrimStart(s);
    PieceMembers(s, |s| - |t|, Trim(s));
  }

  /** The characters of a piece of `s` are characters of `s`. */
  lemma PieceMembers(s: string, i: nat, r: string)
    requires i <= |s| && |r| <= |s| - i && r == s[i..][..|r|]
    ensures forall c :: c in r ==> c in s
  {
    forall c | c in r
      ensures c in s
    {
      var k :| 0 <= k < |r| && r[k] == c;
      assert s[i + k] == c;
    }
  }

  /** Trimming a string that neither starts nor ends with whitespace changes
      nothing; in particular trimming is idempotent. */
  lemma TrimUnchanged(s: string)
    requires s == [] || (!IsWhitespace(s[0]) && !IsWhitespace(s[|s| - 1]))
    ensures Trim(s) == s
  {
  }

  /** A string made only of whitespace trims to the empty string. */
  lemma TrimAllWhitespace(s: string)
    requires forall k :: 0 <= k < |s| ==> IsWhitespace(s[k])
    ensures Trim(s) == ""
  {
  }

  /** One leading whitespace character before a non-whitespace one is all
      TrimStart drops. */
  lemma TrimStartOne(s: string)
    requires |s| >= 2 && IsWhitespace(s[0]) && !IsWhitespace(s[1])
    ensures TrimStart(s) == s[1..]
  {
    assert TrimStart(s) == TrimStart(s[1..]);
  }

  /** TrimEnd never cuts into a prefix that ends with a non-whitespace character. */
  lemma TrimEndKeepsPrefix(a: string, b: string)
    requires a != [] && !IsWhitespace(a[|a| - 1])
    ensures |a| <= |TrimEnd(a + b)| && TrimEnd(a + b)[..|a|] == a
  {
    assert !IsWhitespace((a + b)[|a| - 1]);
    assert (a + b)[..|a|] == a;
  }

  predicate IsLowerAscii(c: char) {
    'a' <= c <= 'z'
  }

  function UpperAscii(c: char): (u: char)
    ensures !IsLowerAscii(u)
    ensures IsLowerAscii(c) || u == c
    ensures IsLowerAscii(c) ==> u as int == c as int - 32
    ensures IsWhitespace(u) == IsWhitespace(c)
  {
    if IsLowerAscii(c) then (c as int - 32) as char else c
  }

  /** upperFirst: the first character is upper-cased when it is an ASCII
      lower-case letter; nothing else changes. */
  function UpperFirst(s: string): (r: string)
    ensures |r| == |s|
    ensures s != [] ==> r[0] == UpperAscii(s[0]) && r[1..] == s[1..]
  {
    if s == [] then "" else [UpperAscii(s[0])] + s[1..]
  }

  /** Upper-casing the first character twice is the same as once. */
  lemma UpperFirstIdempotent(s: string)
    ensures UpperFirst(UpperFirst(s)) == UpperFirst(s)
  {
  }

  /** Array.prototype.join. */
  function Join(parts: seq<string>, sep: string): string {
    if |parts| == 0 then ""
    else if |parts| == 1 then parts[0]
    else parts[0] + sep + Join(parts[1..], sep)
  }

  /** Joining two or more parts puts the separator after the first. */
  lemma JoinCons(parts: seq<string>, sep: string)
    requires |parts| >= 2
    ensures Join(parts, sep) == parts[0] + (sep + Join(parts[1..], sep))
  {
  }

  /** Lines that start with an empty line and then a line `t` that neither
      starts nor ends with whitespace: once joined with newlines and trimmed,
      the text starts with `t`. */
  lemma TrimmedStartsWith(lines: seq<string>, t: string)
    requires |lines| >= 2 && lines[0] == "" && lines[1] == t
    requires t != [] && !IsWhitespace(t[0]) && !IsWhitespace(t[|t| - 1])
    ensures var out := Trim(Join(lines, "\n"));
      |t| <= |out| && out[..|t|] == t
  {
    var rest := if |lines| == 2 then "" else "\n" + Join(lines[2..], "\n");
    assert Join(lines[1..], "\n") == t + rest by {
      if |lines| > 2 {
        JoinCons(lines[1..], "\n");
        assert lines[1..][1..] == lines[2..];
      }
    }
    JoinCons(lines, "\n");
    var joined := Join(lines, "\n");
    assert joined == "\n" + (t + rest);
    assert joined[1] == t[0];
    TrimStartOne(joined);
    assert joined[1..] == t + rest;
    TrimEndKeepsPrefix(t, rest);
  }

  /** A line between two empty lines, joined and trimmed, is that line again
      when it neither starts nor ends with whitespace. */
  lemma TrimmedAlone(t: string)
    requires t != [] && !IsWhitespace(t[0]) && !IsWhitespace(t[|t| - 1])
    ensures Trim(Join(["", t, ""], "\n")) == t
  {
    var lines := ["", t, ""];
    JoinCons(lines, "\n");
    assert lines[1..] == [t, ""];
    JoinCons(lines[1..], "\n");
    assert lines[1..][1..] == [""];
    var joined := Join(lines, "\n");
    assert joined == "\n" + (t + "\n");
    assert joined[1] == t[0];
    TrimStartOne(joined);
    assert joined[1..] == t + "\n";
    TrimEndKeepsPrefix(t, "\n");
    assert TrimEnd(t + "\n") == t;
  }

  /** String.prototype.split with a one-character separator: the pieces
      between separators, at least one of them, none holding the separator. */
  function Split(s: string, sep: char): (r: seq<string>)
    ensures |r| >= 1
    ensures forall p :: p in r ==> sep !in p
  {
    if s == [] then [""]
    else
      var rest := Split(s[1..], sep);
      if s[0] == sep then [""] + rest
      else
        assert rest[0] in rest;
        [[s[0]] + rest[0]] + rest[1..]
  }

  /** Splitting and joining back with the same separator gives the input. */
  lemma {:induction false} JoinSplit(s: string, sep: char)
    ensures Join(Split(s, sep), [sep]) == s
  {
    if s != [] {
      var rest := Split(s[1..], sep);
      JoinSplit(s[1..], sep);
      if s[0] == sep {
        assert s == [sep] + s[1..];
      } else if |rest| == 1 {
        assert s == [s[0]] + s[1..];
      } else {
        JoinExtend(s[0], rest, [sep]);
        assert s == [s[0]] + s[1..];
      }
    }
  }

  /** Prepending a character to the first part prepends it to the join. */
  lemma JoinExtend(c: char, parts: seq<string>, sep: string)
    requires |parts| > 1
    ensures Join([[c] + parts[0]] + parts[1..], sep) == [c] + Join(parts, sep)
  {
    var tail := sep + Join(parts[1..], sep);
    var ext := [[c] + parts[0]] + parts[1..];
    assert ext[1..] == parts[1..];
    assert Join(ext, sep) == [c] + parts[0] + tail;
    assert Join(parts, sep) == parts[0] + tail;
  }

  /** A piece free of the separator splits to itself. */
  lemma {:induction false} SplitNoSeparator(p: string, sep: char)
    requires sep !in p
    ensures Split(p, sep) == [p]
  {
    if p != [] {
      SplitNoSeparator(p[1..], sep);
      assert p == [p[0]] + p[1..];
    }
  }

  /** Splitting stops at the first separator. */
  lemma {:induction false} SplitAtSeparator(p: string, t: string, sep: char)
    requires sep !in p
    ensures Split(p + [sep] + t, sep) == [p] + Split(t, sep)
  {
    if p == [] {
      assert p + [sep] + t == [sep] + t;
      assert ([sep] + t)[1..] == t;
    } else {
      SplitAtSeparator(p[1..], t, sep);
      assert (p + [sep] + t)[1..] == p[1..] + [sep] + t;
      assert p == [p[0]] + p[1..];
    }
  }

  /** Joining pieces free of the separator and splitting again gives the
      pieces back. */
  lemma {:induction false} SplitJoin(parts: seq<string>, sep: char)
    requires |parts| >= 1
    requires forall p :: p in parts ==> sep !in p
    ensures Split(Join(parts, [sep]), sep) == parts
  {
    if |parts| == 1 {
      SplitNoSeparator(parts[0], sep);
    } else {
      SplitJoin(parts[1..], sep);
      SplitAtSeparator(parts[0], Join(parts[1..], [sep]), sep);
      assert parts == [parts[0]] + parts[1..];
    }
  }
}
