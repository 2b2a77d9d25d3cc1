/** The JavaScript string primitives the core relies on: the `\s` character
    class, `split(/\s+/)`, `trim()`, `toLowerCase()` on ASCII letters,
    `replace(pattern, replacement)` with a string pattern, and
    `encodeURIComponent`. */
module JsStrings {
  import opened Sequences

  /** ECMAScript WhiteSpace and LineTerminator code points: the `\s` class of
      a regular expression and the characters `trim()` removes. */
  predicate IsJsWhitespace(c: char)
  {
    || c == ' ' || c == '\t' || c == '\n' || c == '\U{000B}' || c == '\U{000C}' || c == '\r'
    || c == '\U{00A0}' || c == '\U{1680}' || ('\U{2000}' <= c <= '\U{200A}')
    || c == '\U{2028}' || c == '\U{2029}' || c == '\U{202F}' || c == '\U{205F}'
    || c == '\U{3000}' || c == '\U{FEFF}'
  }

  predicate NoWhitespace(s: string)
  {
    forall i :: 0 <= i < |s| ==> !IsJsWhitespace(s[i])
  }

  predicate AllWhitespace(s: string)
  {
    forall i :: 0 <= i < |s| ==> IsJsWhitespace(s[i])
  }

  function NotWhitespace(c: char): bool { !IsJsWhitespace(c) }

  /** `s` with its leading run of whitespace removed. */
  function SkipWhitespace(s: string): (r: string)
    ensures |r| <= |s| && r == s[|s| - |r|..]
    ensures AllWhitespace(s[..|s| - |r|])
    ensures r == [] || !IsJsWhitespace(r[0])
  {
    if s != [] && IsJsWhitespace(s[0]) then SkipWhitespace(s[1..]) else s
  }

  /** `s.split(/\s+/)`: the pieces between maximal runs of whitespace. A
      leading run yields an empty first piece, a trailing run an empty last
      piece, and the empty string yields one empty piece. */
  function SplitOnWhitespace(s: string): (parts: seq<string>)
    ensures |parts| >= 1
    ensures forall i :: 0 <= i < |parts| ==> NoWhitespace(parts[i])
    decreases |s|
  {
    if s == [] then [""]
    else if IsJsWhitespace(s[0]) then [""] + SplitOnWhitespace(SkipWhitespace(s))
    else
      var rest := SplitOnWhitespace(s[1..]);
      [[s[0]] + rest[0]] + rest[1..]
  }

  /** A string without whitespace splits into itself alone. */
  lemma {:induction false} SplitWithoutWhitespace(s: string)
    requires NoWhitespace(s)
    ensures SplitOnWhitespace(s) == [s]
  {
    if s != [] {
      SplitWithoutWhitespace(s[1..]);
      assert [s[0]] + s[1..] == s;
    }
  }

  /** A run of whitespace is skipped entirely, up to the first character
      after it. */
  lemma {:induction false} SkipRun(ws: string, rest: string)
    requires AllWhitespace(ws)
    requires rest == [] || !IsJsWhitespace(rest[0])
    ensures SkipWhitespace(ws + rest) == rest
  {
    if ws == [] {
      assert ws + rest == rest;
    } else {
      assert (ws + rest)[1..] == ws[1..] + rest;
      SkipRun(ws[1..], rest);
    }
  }

  /** Where the pieces break: a whitespace-free word followed by a run of
      whitespace is a piece of its own, and splitting goes on after the run. */
  lemma {:induction false} SplitAtRun(w: string, ws: string, rest: string)
    requires NoWhitespace(w)
    requires ws != [] && AllWhitespace(ws)
    requires rest == [] || !IsJsWhitespace(rest[0])
    ensures SplitOnWhitespace(w + ws + rest) == [w] + SplitOnWhitespace(rest)
    decreases |w|
  {
    var s := w + ws + rest;
    if w == [] {
      assert s == ws + rest;
      SkipRun(ws, rest);
    } else {
      assert s[0] == w[0];
      assert s[1..] == w[1..] + ws + rest;
      SplitAtRun(w[1..], ws, rest);
      assert [w[0]] + w[1..] == w;
    }
  }

  /** The pieces of a split, put back together, are the input with every
      whitespace character removed. */
  lemma {:induction false} SplitFlattens(s: string)
    ensures Flatten(SplitOnWhitespace(s)) == Filter(NotWhitespace, s)
    decreases |s|
  {
    if s == [] {
    } else if IsJsWhitespace(s[0]) {
      var t := SkipWhitespace(s);
      SplitFlattens(t);
      DropWhitespacePrefix(s, |s| - |t|);
      var parts := [""] + SplitOnWhitespace(t);
      assert parts[1..] == SplitOnWhitespace(t);
      assert Flatten(parts) == "" + Flatten(SplitOnWhitespace(t));
    } else {
      var rest := SplitOnWhitespace(s[1..]);
      SplitFlattens(s[1..]);
      var parts := [[s[0]] + rest[0]] + rest[1..];
      assert parts[1..] == rest[1..];
      calc {
        Flatten(parts);
        ([s[0]] + rest[0]) + Flatten(rest[1..]);
        [s[0]] + (rest[0] + Flatten(rest[1..]));
        [s[0]] + Flatten(rest);
        [s[0]] + Filter(NotWhitespace, s[1..]);
        Filter(NotWhitespace, s);
      }
    }
  }

  /** Removing a whitespace prefix does not change what a whitespace-free
      filter keeps. */
  lemma DropWhitespacePrefix(s: string, k: nat)
    requires k <= |s| && AllWhitespace(s[..k])
    ensures Filter(NotWhitespace, s) == Filter(NotWhitespace, s[k..])
  {
    assert s == s[..k] + s[k..];
    FilterConcat(NotWhitespace, s[..k], s[k..]);
    FilterNone(NotWhitespace, s[..k]);
  }

  lemma {:induction false} FilterNone<T>(p: T -> bool, xs: seq<T>)
    requires forall i :: 0 <= i < |xs| ==> !p(xs[i])
    ensures Filter(p, xs) == []
  {
    if xs != [] {
      FilterNone(p, xs[1..]);
    }
  }

  /** `trimStart()`: the suffix left after the leading whitespace. */
  function TrimStart(s: string): (r: string)
    ensures |r| <= |s| && r == s[|s| - |r|..]
    ensures AllWhitespace(s[..|s| - |r|])
    ensures r == [] || !IsJsWhitespace(r[0])
  {
    SkipWhitespace(s)
  }

  /** `trimEnd()`: the prefix left after the trailing whitespace. */
  function TrimEnd(s: string): (r: string)
    ensures |r| <= |s| && r == s[..|r|]
    ensures AllWhitespace(s[|r|..])
    ensures r == [] || !IsJsWhitespace(r[|r| - 1])
  {
    if s != [] && IsJsWhitespace(s[|s| - 1]) then TrimEnd(s[..|s| - 1]) else s
  }

  /** `trim()`. */
  function Trim(s: string): (r: string)
    ensures |r| <= |s|
    ensures r == [] || (!IsJsWhitespace(r[0]) && !IsJsWhitespace(r[|r| - 1]))
    ensures exists k :: 0 <= k <= |s| - |r| && r == s[k..k + |r|] &&
              AllWhitespace(s[..k]) && AllWhitespace(s[k + |r|..])
  {
    var t := TrimStart(s);
    var r := TrimEnd(t);
    var k := |s| - |t|;
    MiddleSlice(s, t, r);
    assert AllWhitespace(s[k + |r|..]);
    assert r == [] || r[0] == t[0];
    r
  }

  /** A prefix of a suffix is a slice, and what follows it in the suffix is
      what follows it in the whole. */
  lemma MiddleSlice(s: string, t: string, r: string)
    requires |t| <= |s| && t == s[|s| - |t|..]
    requires |r| <= |t| && r == t[..|r|]
    ensures r == s[|s| - |t|..|s| - |t| + |r|]
    ensures s[|s| - |t| + |r|..] == t[|r|..]
  {
  }


  /** Whitespace padding on either side does not change the trimmed string. */
  lemma TrimIgnoresPadding(a: string, s: string, b: string)
    requires AllWhitespace(a) && AllWhitespace(b)
    ensures Trim(a + s + b) == Trim(s)
  {
    assert a + s + b == a + (s + b);
    TrimStartSkipsWhitespace(a, s + b);
    TrimStartAppend(s, b);
    if TrimStart(s) == [] {
      TrimStartSkipsWhitespace(b, "");
      assert b + "" == b;
    } else {
      TrimEndSkipsWhitespace(TrimStart(s), b);
    }
  }

  lemma {:induction false} TrimStartSkipsWhitespace(a: string, s: string)
    requires AllWhitespace(a)
    ensures TrimStart(a + s) == TrimStart(s)
  {
    if a != [] {
      assert (a + s)[1..] == a[1..] + s;
      TrimStartSkipsWhitespace(a[1..], s);
    } else {
      assert a + s == s;
    }
  }

  lemma {:induction false} TrimStartAppend(s: string, b: string)
    ensures TrimStart(s + b) == if TrimStart(s) == [] then TrimStart(b) else TrimStart(s) + b
  {
    if s == [] {
      assert s + b == b;
    } else if IsJsWhitespace(s[0]) {
      assert (s + b)[1..] == s[1..] + b;
      TrimStartAppend(s[1..], b);
    }
  }

  lemma {:induction false} TrimEndSkipsWhitespace(s: string, b: string)
    requires AllWhitespace(b)
    ensures TrimEnd(s + b) == TrimEnd(s)
    decreases |b|
  {
    if b != [] {
      assert (s + b)[..|s + b| - 1] == s + b[..|b| - 1];
      TrimEndSkipsWhitespace(s, b[..|b| - 1]);
    } else {
      assert s + b == s;
    }
  }

  /** `toLowerCase()` restricted to ASCII: `A`-`Z` become `a`-`z`, every
      other character is kept. */
  function AsciiLower(c: char): (r: char)
    ensures IsJsWhitespace(r) <==> IsJsWhitespace(c)
    ensures 'A' <= c <= 'Z' ==> 'a' <= r <= 'z'
    ensures !('A' <= c <= 'Z') ==> r == c
  {
    if 'A' <= c <= 'Z' then (c - 'A' + 'a') as char else c
  }

  function Lower(s: string): (r: string)
    ensures |r| == |s|
    ensures forall i :: 0 <= i < |s| ==> r[i] == AsciiLower(s[i])
  {
    Map(AsciiLower, s)
  }
  /** Lower-casing works character by character, so it distributes over
      concatenation. */
  lemma LowerConcat(x: string, y: string)
    ensures Lower(x + y) == Lower(x) + Lower(y)
  {
    MapConcat(AsciiLower, x, y);
  }


  /** Lowering is idempotent. */
  lemma LowerIdempotent(s: string)
    ensures Lower(Lower(s)) == Lower(s)
  {
  }

  /** Lowering keeps every whitespace character where it was, so it commutes
      with trimming. */
  lemma {:induction false} TrimLower(s: string)
    ensures Trim(Lower(s)) == Lower(Trim(s))
  {
    TrimStartLower(s);
    TrimEndLower(TrimStart(s));
  }

  lemma {:induction false} TrimStartLower(s: string)
    ensures TrimStart(Lower(s)) == Lower(TrimStart(s))
  {
    if s != [] && IsJsWhitespace(s[0]) {
      assert Lower(s)[1..] == Lower(s[1..]);
      TrimStartLower(s[1..]);
    }
  }

  lemma {:induction false} TrimEndLower(s: string)
    ensures TrimEnd(Lower(s)) == Lower(TrimEnd(s))
  {
    if s != [] && IsJsWhitespace(s[|s| - 1]) {
      assert Lower(s)[..|s| - 1] == Lower(s[..|s| - 1]);
      TrimEndLower(s[..|s| - 1]);
    }
  }

  /** `pat` occurs in `s` starting at index `k`. */
  predicate OccursAt(s: string, pat: string, k: int)
  {
    0 <= k && k + |pat| <= |s| && s[k..k + |pat|] == pat
  }

  predicate Contains(s: string, pat: string)
  {
    exists k :: 0 <= k <= |s| && OccursAt(s, pat, k)
  }

  /** `s.indexOf(pat, from)`: the first occurrence at or after `from`, or -1. */
  function IndexOf(s: string, pat: string, from: nat): (i: int)
    ensures i == -1 || (from <= i && OccursAt(s, pat, i))
    ensures forall k :: from <= k && (i == -1 || k < i) ==> !OccursAt(s, pat, k)
    decreases |s| - from
  {
    if from + |pat| > |s| then -1
    else if s[from..from + |pat|] == pat then from
    else IndexOf(s, pat, from + 1)
  }

  /** `s.replace(pat, rep)` with a string pattern: only the first occurrence
      of `pat` is replaced; without one, `s` is returned as it is. */
  function ReplaceFirst(s: string, pat: string, rep: string): (r: string)
    ensures !Contains(s, pat) ==> r == s
    ensures forall i :: OccursAt(s, pat, i) && (forall k :: 0 <= k < i ==> !OccursAt(s, pat, k)) ==>
              r == s[..i] + rep + s[i + |pat|..]
  {
    var i := IndexOf(s, pat, 0);
    assert forall j :: OccursAt(s, pat, j) && (forall k :: 0 <= k < j ==> !OccursAt(s, pat, k)) ==> j == i by {
      forall j | OccursAt(s, pat, j) && (forall k :: 0 <= k < j ==> !OccursAt(s, pat, k)) ensures j == i {
        assert !(i == -1 || j < i);
      }
    }
    if i < 0 then s else s[..i] + rep + s[i + |pat|..]
  }

  /** The characters `encodeURIComponent` leaves as they are. */
  predicate IsUriUnreserved(c: char)
  {
    || ('A' <= c <= 'Z') || ('a' <= c <= 'z') || ('0' <= c <= '9')
    || c == '-' || c == '_' || c == '.' || c == '!' || c == '~' || c == '*'
    || c == '\'' || c == '(' || c == ')'
  }

  /** The UTF-8 encoding of one code point. */
  function Utf8(c: char): (bytes: seq<nat>)
    ensures 1 <= |bytes| <= 4
    ensures forall i :: 0 <= i < |bytes| ==> bytes[i] < 256
  {
    var n := c as int;
    if n < 0x80 then [n]
    else if n < 0x800 then [0xC0 + n / 0x40, 0x80 + n % 0x40]
    else if n < 0x10000 then [0xE0 + n / 0x1000, 0x80 + (n / 0x40) % 0x40, 0x80 + n % 0x40]
    else [0xF0 + n / 0x40000 % 8, 0x80 + (n / 0x1000) % 0x40, 0x80 + (n / 0x40) % 0x40, 0x80 + n % 0x40]
  }

  function HexDigit(d: nat): char
    requires d < 16
  {
    if d < 10 then ('0' as int + d) as char else ('A' as int + d - 10) as char
  }

  /** `%XX` for every UTF-8 byte of `c`, in upper-case hexadecimal. */
  function PercentEncode(c: char): (r: string)
    ensures |r| >= 3 && r[0] == '%'
  {
    Flatten(Map((b: nat) => if b < 256 then ['%', HexDigit(b / 16), HexDigit(b % 16)] else [], Utf8(c)))
  }

  /** `encodeURIComponent(s)`. */
  function EncodeUriComponent(s: string): (r: string)
    ensures |r| >= |s|
  {
    if s == [] then []
    else (if IsUriUnreserved(s[0]) then [s[0]] else PercentEncode(s[0])) + EncodeUriComponent(s[1..])
  }

  /** `encodeURIComponent` returns its input exactly when every character of
      the input is unreserved. */
  lemma {:induction false} EncodeIdentity(s: string)
    ensures EncodeUriComponent(s) == s <==> forall i :: 0 <= i < |s| ==> IsUriUnreserved(s[i])
  {
    if s != [] {
      EncodeIdentity(s[1..]);
      if !IsUriUnreserved(s[0]) {
        assert |EncodeUriComponent(s)| > |s|;
      } else {
        assert s == [s[0]] + s[1..];
      }
    }
  }
}
