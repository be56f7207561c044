// Models of the JavaScript string built-ins the charts call on CSV fields:
// `String.prototype.split` with a non-empty separator string,
// `Array.prototype.join` on strings and `String.prototype.trim`.

module JsStrings {
  /** `sep` occurs in `s` starting at position `q`. */
  predicate OccursAt(s: string, sep: string, q: nat) {
    q + |sep| <= |s| && s[q..q + |sep|] == sep
  }

  predicate Contains(s: string, sep: string) {
    exists q: nat | q <= |s| :: OccursAt(s, sep, q)
  }

  /**
   * `s.split(sep)` for a non-empty separator, scanning left to right: where
   * `sep` starts, the current piece ends and the scan resumes after `sep`;
   * any other character joins the current piece. The empty string splits into
   * one empty piece.
   */
  function Split(s: string, sep: string): (r: seq<string>)
    requires |sep| > 0
    ensures |r| >= 1
    decreases |s|
  {
    if !OccursAt(s, sep, 0) then
      if s == [] then [s]
      else
        var rest := Split(s[1..], sep);
        [[s[0]] + rest[0]] + rest[1..]
    else [""] + Split(s[|sep|..], sep)
  }

  /** The first piece is a prefix of the input. */
  lemma {:induction false} SplitHeadIsPrefix(s: string, sep: string)
    requires |sep| > 0
    ensures |Split(s, sep)[0]| <= |s| && Split(s, sep)[0] == s[..|Split(s, sep)[0]|]
    decreases |s|
  {
    if !OccursAt(s, sep, 0) && s != [] {
      SplitHeadIsPrefix(s[1..], sep);
    }
  }

  /** No piece of a split contains the separator: every occurrence was cut out. */
  lemma {:induction false} SplitPiecesLackSeparator(s: string, sep: string)
    requires |sep| > 0
    ensures forall i :: 0 <= i < |Split(s, sep)| ==> !Contains(Split(s, sep)[i], sep)
    decreases |s|
  {
    if !OccursAt(s, sep, 0) {
      if s != [] {
        var rest := Split(s[1..], sep);
        SplitPiecesLackSeparator(s[1..], sep);
        SplitHeadIsPrefix(s[1..], sep);
        HeadLacksSeparator(s, sep, rest[0]);
        assert forall i :: 1 <= i < |Split(s, sep)| ==> Split(s, sep)[i] == rest[i];
      }
    } else {
      SplitPiecesLackSeparator(s[|sep|..], sep);
      assert forall i :: 1 <= i < |Split(s, sep)| ==> Split(s, sep)[i] == Split(s[|sep|..], sep)[i - 1];
    }
  }

  /** A character that does not start `sep`, put before a prefix of the rest that lacks `sep`, does not create one. */
  lemma HeadLacksSeparator(s: string, sep: string, piece: string)
    requires |sep| > 0 && s != [] && !OccursAt(s, sep, 0)
    requires |piece| <= |s| - 1 && piece == s[1..][..|piece|]
    requires !Contains(piece, sep)
    ensures !Contains([s[0]] + piece, sep)
  {
    var head := [s[0]] + piece;
    assert head == s[..|head|];
    forall t: nat | t <= |head| ensures !OccursAt(head, sep, t) {
      if t == 0 {
        if |sep| <= |head| {
          assert head[..|sep|] == s[..|sep|];
        }
      } else {
        if t + |sep| <= |head| {
          assert head[t..t + |sep|] == piece[t - 1..t - 1 + |sep|];
        }
        assert !OccursAt(piece, sep, t - 1);
      }
    }
  }

  /** `xs.join(sep)`: the elements with `sep` between neighbours; `[].join(sep)` is "". */
  function Join(xs: seq<string>, sep: string): string {
    if |xs| == 0 then ""
    else if |xs| == 1 then xs[0]
    else xs[0] + sep + Join(xs[1..], sep)
  }

  /** Splitting loses nothing: joining the pieces with the separator gives back the input. */
  lemma {:induction false} JoinSplit(s: string, sep: string)
    requires |sep| > 0
    ensures Join(Split(s, sep), sep) == s
    decreases |s|
  {
    if !OccursAt(s, sep, 0) {
      if s != [] {
        var rest := Split(s[1..], sep);
        JoinSplit(s[1..], sep);
        JoinExtendsHead(rest, s[0], sep);
        assert s == [s[0]] + s[1..];
      }
    } else {
      var rest := s[|sep|..];
      JoinSplit(rest, sep);
      JoinCons("", Split(rest, sep), sep);
      assert s == s[..|sep|] + rest;
    }
  }

  /** Text that starts with a piece free of the separator character starts the first piece with it. */
  lemma {:induction false} SplitAfterPlainPrefix(x: string, tail: string, c: char)
    requires c !in x
    ensures Split(x + tail, [c]) == [x + Split(tail, [c])[0]] + Split(tail, [c])[1..]
    decreases |x|
  {
    var r := Split(tail, [c]);
    if x == [] {
      assert x + tail == tail && x + r[0] == r[0];
      assert [r[0]] + r[1..] == r;
    } else {
      var s := x + tail;
      assert s[..1] == [x[0]];
      assert !OccursAt(s, [c], 0);
      assert s[1..] == x[1..] + tail;
      SplitAfterPlainPrefix(x[1..], tail, c);
      assert [x[0]] + (x[1..] + r[0]) == x + r[0];
    }
  }

  /**
   * The converse round trip, for a one-character separator: when no piece
   * contains it, splitting the joined text gives back the pieces.
   */
  lemma {:induction false} SplitJoin(xs: seq<string>, c: char)
    ensures |xs| >= 1 && (forall k :: 0 <= k < |xs| ==> c !in xs[k]) ==> Split(Join(xs, [c]), [c]) == xs
    decreases |xs|
  {
    if |xs| == 1 && c !in xs[0] {
      SplitAfterPlainPrefix(xs[0], "", c);
      assert xs[0] + "" == xs[0];
    } else if |xs| >= 2 && forall k :: 0 <= k < |xs| ==> c !in xs[k] {
      var rest := xs[1..];
      SplitJoin(rest, c);
      var tail := [c] + Join(rest, [c]);
      assert Join(xs, [c]) == xs[0] + tail;
      assert tail[..1] == [c];
      assert tail[1..] == Join(rest, [c]);
      assert Split(tail, [c]) == [""] + rest;
      SplitAfterPlainPrefix(xs[0], tail, c);
      assert xs[0] + "" == xs[0];
      assert xs == [xs[0]] + rest;
    }
  }

  /**
   * Why `SplitJoin` takes a single character: with "aa" as separator,
   * `["a", ""].join("aa")` is "aaa", and "aaa" splits as `["", "a"]`.
   */
  lemma SplitJoinOverlap()
    ensures Join(["a", ""], "aa") == "aaa"
    ensures Split("aaa", "aa") == ["", "a"]
  {
    assert Join([""], "aa") == "";
    assert !OccursAt("a", "aa", 0);
    assert Split("", "aa") == [""];
    assert "a"[1..] == "" && ['a'] + "" == "a";
    assert Split("a", "aa") == ["a"];
    assert "aaa"[..2] == "aa";
    assert OccursAt("aaa", "aa", 0);
    assert "aaa"[2..] == "a";
  }

  lemma JoinCons(x: string, xs: seq<string>, sep: string)
    requires |xs| >= 1
    ensures Join([x] + xs, sep) == x + sep + Join(xs, sep)
  {
    assert ([x] + xs)[1..] == xs;
  }

  /** Putting a character in front of the first piece puts it in front of the joined text. */
  lemma JoinExtendsHead(xs: seq<string>, c: char, sep: string)
    requires |xs| >= 1
    ensures Join([[c] + xs[0]] + xs[1..], sep) == [c] + Join(xs, sep)
  {
    if |xs| >= 2 {
      JoinCons([c] + xs[0], xs[1..], sep);
    }
  }

  /** Number of positions of `c` in `s`. */
  function CountChar(s: string, c: char): nat {
    if s == [] then 0 else (if s[0] == c then 1 else 0) + CountChar(s[1..], c)
  }

  /** Splitting on a one-character separator gives one more piece than it has occurrences. */
  lemma {:induction false} SplitCharCount(s: string, c: char)
    ensures |Split(s, [c])| == CountChar(s, c) + 1
    decreases |s|
  {
    if s != [] {
      SplitCharCount(s[1..], c);
      assert OccursAt(s, [c], 0) <==> s[0] == c by {
        assert s[0..1] == [s[0]];
      }
    }
  }

  /**
   * The characters `trim` removes: ECMAScript WhiteSpace (tab, vertical tab,
   * form feed, space, no-break space, byte order mark and the other Unicode
   * space separators) and LineTerminator (line feed, carriage return, line
   * and paragraph separators).
   */
  predicate IsWhitespace(c: char) {
    || c == '\t' || c == '\n' || c == '\U{000B}' || c == '\U{000C}' || c == '\r'
    || c == ' ' || c == '\U{00A0}' || c == '\U{1680}'
    || ('\U{2000}' <= c <= '\U{200A}')
    || c == '\U{2028}' || c == '\U{2029}' || c == '\U{202F}' || c == '\U{205F}'
    || c == '\U{3000}' || c == '\U{FEFF}'
  }

  predicate AllWhitespace(s: string) {
    forall k :: 0 <= k < |s| ==> IsWhitespace(s[k])
  }

  /** `s.trimStart()`: the suffix after the leading whitespace. */
  function TrimStart(s: string): (r: string)
    ensures |r| <= |s| && r == s[|s| - |r|..] && AllWhitespace(s[..|s| - |r|])
    ensures r == [] || !IsWhitespace(r[0])
  {
    if s != [] && IsWhitespace(s[0]) then
      var r := TrimStart(s[1..]);
      var n := |s| - |r|;
      assert s[1..][..n - 1] == s[1..n];
      assert forall k :: 1 <= k < n ==> s[k] == s[1..n][k - 1];
      r
    else s
  }

  /** `s.trimEnd()`: the prefix before the trailing whitespace. */
  function TrimEnd(s: string): (r: string)
    ensures |r| <= |s| && r == s[..|r|] && AllWhitespace(s[|r|..])
    ensures r == [] || !IsWhitespace(r[|r| - 1])
  {
    if s != [] && IsWhitespace(s[|s| - 1]) then
      var r := TrimEnd(s[..|s| - 1]);
      assert s[|r|..] == s[..|s| - 1][|r|..] + [s[|s| - 1]];
      r
    else s
  }

  /**
   * `s.trim()`: `s` with its leading and trailing whitespace removed, so the
   * result starts and ends with a non-whitespace character (or is empty) and is
   * the part of `s` left between two runs of whitespace.
   */
  function Trim(s: string): (r: string)
    ensures r == [] || (!IsWhitespace(r[0]) && !IsWhitespace(r[|r| - 1]))
    ensures exists a: nat :: a + |r| <= |s| && r == s[a..a + |r|] && AllWhitespace(s[..a]) && AllWhitespace(s[a + |r|..])
  {
    var t := TrimStart(s);
    var r := TrimEnd(t);
    TrimComposes(s, t, r);
    r
  }

  /** Removing a whitespace prefix and then a whitespace suffix leaves a middle part between whitespace. */
  lemma TrimComposes(s: string, t: string, r: string)
    requires |t| <= |s| && t == s[|s| - |t|..] && AllWhitespace(s[..|s| - |t|])
    requires |r| <= |t| && r == t[..|r|] && AllWhitespace(t[|r|..])
    requires t == [] || !IsWhitespace(t[0])
    requires r == [] || !IsWhitespace(r[|r| - 1])
    ensures r == [] || (!IsWhitespace(r[0]) && !IsWhitespace(r[|r| - 1]))
    ensures var a := |s| - |t|;
            a + |r| <= |s| && r == s[a..a + |r|] && AllWhitespace(s[..a]) && AllWhitespace(s[a + |r|..])
  {
    var a := |s| - |t|;
    assert s[a..][..|r|] == s[a..a + |r|];
    assert t[|r|..] == s[a + |r|..];
  }

  /** Trimming twice is trimming once. */
  lemma TrimIdempotent(s: string)
    ensures Trim(Trim(s)) == Trim(s)
  {
    var r := Trim(s);
    if r != [] {
      assert TrimStart(r) == r;
      assert TrimEnd(r) == r;
    }
  }
}
