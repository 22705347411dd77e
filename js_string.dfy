/**
 * The JavaScript string built-ins the object-name check uses:
 * `String.prototype.trim` and `String.prototype.split` with a one-character
 * separator, with `Array.prototype.join` as the inverse of `split`.
 * Strings are sequences of characters; no encoding is involved.
 */
module JsString {

  /**
   * The characters `trim` removes: ECMAScript's WhiteSpace (tab, vertical tab,
   * form feed, the byte order mark and every space separator of category Zs)
   * and LineTerminator (line feed, carriage return, U+2028, U+2029).
   */
  const Whitespace: set<char> :=
    {'\t', '\n', '\U{000B}', '\U{000C}', '\r', ' ', '\U{00A0}', '\U{1680}',
     '\U{2000}', '\U{2001}', '\U{2002}', '\U{2003}', '\U{2004}', '\U{2005}',
     '\U{2006}', '\U{2007}', '\U{2008}', '\U{2009}', '\U{200A}',
     '\U{2028}', '\U{2029}', '\U{202F}', '\U{205F}', '\U{3000}', '\U{FEFF}'}

  predicate IsWhitespace(c: char)
  {
    c in Whitespace
  }

  ghost predicate AllWhitespace(s: string)
  {
    forall i :: 0 <= i < |s| ==> IsWhitespace(s[i])
  }

  /** `s.trimStart()`: drops the longest all-whitespace prefix. */
  function TrimStart(s: string): string
  {
    if s != [] && IsWhitespace(s[0]) then TrimStart(s[1..]) else s
  }

  /** `s.trimEnd()`: drops the longest all-whitespace suffix. */
  function TrimEnd(s: string): string
  {
    if s != [] && IsWhitespace(s[|s| - 1]) then TrimEnd(s[..|s| - 1]) else s
  }

  /** `s.trim()`: both of the above. */
  function Trim(s: string): string
  {
    TrimEnd(TrimStart(s))
  }

  /**
   * `trimStart` keeps a suffix of the string, what it drops is all
   * whitespace, and what it keeps does not start with whitespace.
   */
  lemma {:induction false} TrimStartSpec(s: string)
    ensures |TrimStart(s)| <= |s| && TrimStart(s) == s[|s| - |TrimStart(s)|..]
    ensures AllWhitespace(s[..|s| - |TrimStart(s)|])
    ensures TrimStart(s) == [] || !IsWhitespace(TrimStart(s)[0])
  {
    if s != [] && IsWhitespace(s[0]) {
      TrimStartSpec(s[1..]);
      var n := |s| - |TrimStart(s)|;
      assert s[1..][..n - 1] == s[1..n];
    }
  }

  /**
   * `trimEnd` keeps a prefix of the string, what it drops is all
   * whitespace, and what it keeps does not end with whitespace.
   */
  lemma {:induction false} TrimEndSpec(s: string)
    ensures |TrimEnd(s)| <= |s| && TrimEnd(s) == s[..|TrimEnd(s)|]
    ensures AllWhitespace(s[|TrimEnd(s)|..])
    ensures TrimEnd(s) == [] || !IsWhitespace(TrimEnd(s)[|TrimEnd(s)| - 1])
  {
    if s != [] && IsWhitespace(s[|s| - 1]) {
      TrimEndSpec(s[..|s| - 1]);
      var n := |TrimEnd(s)|;
      assert s[n..] == s[..|s| - 1][n..] + [s[|s| - 1]];
    }
  }

  /**
   * The trimmed text is the slice of the input between an all-whitespace
   * prefix and an all-whitespace suffix, and it neither starts nor ends with
   * whitespace.
   */
  lemma TrimIsInnerSlice(s: string)
    ensures var a, r := |s| - |TrimStart(s)|, Trim(s);
      && 0 <= a && a + |r| <= |s| && r == s[a..a + |r|]
      && AllWhitespace(s[..a]) && AllWhitespace(s[a + |r|..])
      && (r == [] || (!IsWhitespace(r[0]) && !IsWhitespace(r[|r| - 1])))
  {
    var t := TrimStart(s);
    TrimStartSpec(s);
    TrimEndSpec(t);
    var r := TrimEnd(t);
    var a := |s| - |t|;
    assert t == s[a..];
    assert r == t[..|r|];
    assert s[a + |r|..] == t[|r|..];
    assert r != [] ==> r[0] == t[0];
  }

  /** Prepending whitespace does not change what `trimStart` keeps. */
  lemma {:induction false} TrimStartSkipsWhitespace(w: string, s: string)
    requires AllWhitespace(w)
    ensures TrimStart(w + s) == TrimStart(s)
  {
    if w != [] {
      assert (w + s)[1..] == w[1..] + s;
      TrimStartSkipsWhitespace(w[1..], s);
    } else {
      assert w + s == s;
    }
  }

  /** Appending whitespace does not change what `trimEnd` keeps. */
  lemma {:induction false} TrimEndSkipsWhitespace(s: string, w: string)
    requires AllWhitespace(w)
    ensures TrimEnd(s + w) == TrimEnd(s)
  {
    if w != [] {
      var w' := w[..|w| - 1];
      assert (s + w)[..|s + w| - 1] == s + w';
      TrimEndSkipsWhitespace(s, w');
    } else {
      assert s + w == s;
    }
  }

  /** Whitespace after text that is not all whitespace survives `trimStart`. */
  lemma {:induction false} TrimStartKeepsTail(s: string, w: string)
    requires !AllWhitespace(s)
    ensures TrimStart(s + w) == TrimStart(s) + w
  {
    assert s != [];
    assert (s + w)[0] == s[0];
    if IsWhitespace(s[0]) {
      assert (s + w)[1..] == s[1..] + w;
      assert !AllWhitespace(s[1..]) by {
        var i :| 0 <= i < |s| && !IsWhitespace(s[i]);
        assert s[1..][i - 1] == s[i];
      }
      TrimStartKeepsTail(s[1..], w);
    }
  }

  /** An all-whitespace string trims to the empty string. */
  lemma TrimAllWhitespace(s: string)
    requires AllWhitespace(s)
    ensures Trim(s) == []
  {
    TrimStartSpec(s);
  }

  /** Leading and trailing whitespace around a string do not change its trimmed text. */
  lemma TrimIgnoresOuterWhitespace(w1: string, s: string, w2: string)
    requires AllWhitespace(w1) && AllWhitespace(w2)
    ensures Trim(w1 + s + w2) == Trim(s)
  {
    assert w1 + s + w2 == w1 + (s + w2);
    TrimStartSkipsWhitespace(w1, s + w2);
    if AllWhitespace(s) {
      assert AllWhitespace(s + w2) by {
        forall i | 0 <= i < |s + w2| ensures IsWhitespace((s + w2)[i]) {
          if i >= |s| { assert (s + w2)[i] == w2[i - |s|]; }
        }
      }
      TrimAllWhitespace(s + w2);
      TrimAllWhitespace(s);
    } else {
      TrimStartKeepsTail(s, w2);
      TrimEndSkipsWhitespace(TrimStart(s), w2);
    }
  }

  /** The number of occurrences of `c` in `s`. */
  function Count(s: string, c: char): (n: nat)
    ensures n <= |s|
    ensures n == 0 <==> c !in s
  {
    if s == [] then 0 else (if s[0] == c then 1 else 0) + Count(s[1..], c)
  }

  /**
   * `s.split(sep)` for a one-character separator: the maximal runs between
   * separators, including empty ones; the empty string splits into `[""]`.
   */
  function Split(s: string, sep: char): (parts: seq<string>)
    ensures |parts| >= 1
    ensures forall k :: 0 <= k < |parts| ==> sep !in parts[k]
  {
    if s == [] then [""]
    else
      var rest := Split(s[1..], sep);
      if s[0] == sep then [""] + rest
      else [[s[0]] + rest[0]] + rest[1..]
  }

  /** `parts.join(sep)`: the parts with one separator between each neighbouring pair. */
  function Join(parts: seq<string>, sep: char): string
  {
    if |parts| == 0 then ""
    else if |parts| == 1 then parts[0]
    else parts[0] + [sep] + Join(parts[1..], sep)
  }

  /** `split` yields one more part than there are separators. */
  lemma {:induction false} SplitCount(s: string, sep: char)
    ensures |Split(s, sep)| == Count(s, sep) + 1
  {
    if s != [] {
      SplitCount(s[1..], sep);
    }
  }

  /** A string splits into more than one part exactly when it contains the separator. */
  lemma SplitIsSeveralParts(s: string, sep: char)
    ensures |Split(s, sep)| > 1 <==> sep in s
  {
    SplitCount(s, sep);
  }

  /** Joining the parts of a split with the same separator restores the string. */
  lemma {:induction false} JoinSplit(s: string, sep: char)
    ensures Join(Split(s, sep), sep) == s
  {
    if s != [] {
      var rest := Split(s[1..], sep);
      JoinSplit(s[1..], sep);
      if s[0] == sep {
        assert Split(s, sep) == [""] + rest;
        assert ([""] + rest)[1..] == rest;
        assert s == [sep] + s[1..];
      } else {
        var parts := Split(s, sep);
        assert parts[1..] == rest[1..];
        if |rest| == 1 {
          assert s == [s[0]] + s[1..];
        } else {
          assert parts[0] == [s[0]] + rest[0];
          assert Join(rest, sep) == rest[0] + [sep] + Join(rest[1..], sep);
          assert s == [s[0]] + s[1..];
        }
      }
    }
  }

  /** Splitting a separator-free text that is followed by more text extends its first part. */
  lemma {:induction false} SplitPrefix(a: string, t: string, sep: char)
    requires sep !in a
    ensures Split(a + t, sep) == [a + Split(t, sep)[0]] + Split(t, sep)[1..]
  {
    if a != [] {
      assert (a + t)[0] == a[0];
      assert (a + t)[1..] == a[1..] + t;
      var rest, parts := Split(a[1..] + t, sep), Split(t, sep);
      SplitPrefix(a[1..], t, sep);
      assert Split(a + t, sep) == [[a[0]] + rest[0]] + rest[1..];
      assert rest[1..] == parts[1..];
      assert [a[0]] + (a[1..] + parts[0]) == a + parts[0];
    } else {
      var parts := Split(t, sep);
      assert a + t == t && a + parts[0] == parts[0];
      assert parts == [parts[0]] + parts[1..];
    }
  }

  /** Splitting the join of separator-free parts gives back the parts. */
  lemma {:induction false} SplitJoin(parts: seq<string>, sep: char)
    requires |parts| >= 1
    requires forall k :: 0 <= k < |parts| ==> sep !in parts[k]
    ensures Split(Join(parts, sep), sep) == parts
  {
    if |parts| == 1 {
      SplitPrefix(parts[0], "", sep);
      assert Split("", sep) == [""];
      assert parts[0] + "" == parts[0];
    } else {
      var tail := Join(parts[1..], sep);
      SplitJoin(parts[1..], sep);
      assert ([sep] + tail)[1..] == tail;
      assert Split([sep] + tail, sep) == [""] + parts[1..];
      assert ([""] + parts[1..])[1..] == parts[1..];
      assert parts[0] + "" == parts[0];
      assert parts[0] + [sep] + tail == parts[0] + ([sep] + tail);
      SplitPrefix(parts[0], [sep] + tail, sep);
      assert parts == [parts[0]] + parts[1..];
    }
  }
}
