/** The usual Some/None wrapper, for results that may be absent. */
module Optional {
  datatype Option<+T> = None | Some(value: T)
}

/**
 * Two plain facts about sequence concatenation. They are stated once here so
 * that the inductive proofs can call them instead of letting the verifier
 * rediscover them in a context full of unrelated terms, which is much slower.
 */
module SeqFacts {
  lemma Associative<T>(x: seq<T>, y: seq<T>, z: seq<T>)
    ensures x + (y + z) == (x + y) + z
  {
  }

  /** Slicing a concatenation inside its first part. */
  lemma SplitConcat<T>(a: seq<T>, b: seq<T>, n: nat)
    requires n <= |a|
    ensures (a + b)[..n] == a[..n]
    ensures (a + b)[n..] == a[n..] + b
  {
  }
}

/**
 * The parts of Python's string and text-file behaviour that the board's
 * storage format depends on: `str.strip()` with no argument, `str.split(sep)`
 * with a non-empty separator, and iteration over a text file line by line.
 */
module Text {
  import opened Optional
  import opened SeqFacts

  /**
   * `str.isspace()` for one character: the set that `strip()` removes,
   * listed by code point.
   */
  predicate IsSpace(c: char) {
    var n := c as int;
    n == 0x20 || 0x09 <= n <= 0x0D || 0x1C <= n <= 0x1F || n == 0x85 || n == 0xA0
    || n == 0x1680 || 0x2000 <= n <= 0x200A || n == 0x2028 || n == 0x2029
    || n == 0x202F || n == 0x205F || n == 0x3000
  }

  predicate AllSpace(s: string) {
    forall i :: 0 <= i < |s| ==> IsSpace(s[i])
  }

  /** Neither end of `s` is whitespace: the shape of every result of `strip()`. */
  predicate Bare(s: string) {
    s == [] || (!IsSpace(s[0]) && !IsSpace(s[|s| - 1]))
  }

  /** `s.lstrip()`: the longest suffix of `s` that does not start with whitespace. */
  function TrimStart(s: string): (r: string)
    ensures |r| <= |s| && r == s[|s| - |r|..]
    ensures forall i :: 0 <= i < |s| - |r| ==> IsSpace(s[i])
    ensures r == [] || !IsSpace(r[0])
    decreases |s|
  {
    if s != [] && IsSpace(s[0]) then TrimStart(s[1..]) else s
  }

  /** `s.rstrip()`: the longest prefix of `s` that does not end with whitespace. */
  function TrimEnd(s: string): (r: string)
    ensures |r| <= |s| && r == s[..|r|]
    ensures forall i :: |r| <= i < |s| ==> IsSpace(s[i])
    ensures r == [] || !IsSpace(r[|r| - 1])
    decreases |s|
  {
    if s != [] && IsSpace(s[|s| - 1]) then TrimEnd(s[..|s| - 1]) else s
  }

  /** `s.strip()`. */
  function Strip(s: string): (r: string)
    ensures |r| <= |s|
    ensures Bare(r)
  {
    TrimEnd(TrimStart(s))
  }

  /** Stripping removes exactly the surrounding whitespace and nothing else. */
  lemma StripExact(lead: string, x: string, trail: string)
    requires AllSpace(lead) && AllSpace(trail) && Bare(x)
    ensures Strip(lead + x + trail) == x
  {
    var s := lead + x + trail;
    var u := TrimStart(s);
    if x == [] {
      assert AllSpace(s);
    } else {
      assert s[|lead|] == x[0];
      assert |s| - |u| <= |lead|;
      assert u != [] && u[0] == s[|s| - |u|];
      assert |s| - |u| >= |lead|;
      assert u == x + trail;
      var r := TrimEnd(u);
      assert u[|x| - 1] == x[|x| - 1];
      assert |r| >= |x|;
      assert r != [] && r[|r| - 1] == u[|r| - 1];
      assert |r| <= |x|;
    }
  }

  /** A character that occurs in `s` at most as its last element is gone after stripping, if it is whitespace. */
  lemma StripDropsFinalSpace(s: string, c: char)
    requires s != [] && IsSpace(c) && c !in s[..|s| - 1]
    ensures c !in Strip(s)
  {
    var u := TrimStart(s);
    if u != [] {
      AtMostLastInSuffix(s, |s| - |u|, c);
      TrimEndDropsFinalSpace(u, c);
    }
  }

  /** What holds of all but the last element of `s` holds of all but the last element of each non-empty suffix. */
  lemma AtMostLastInSuffix(s: string, k: nat, c: char)
    requires k < |s| && c !in s[..|s| - 1]
    ensures c !in s[k..][..|s| - k - 1]
  {
    assert s[k..][..|s| - k - 1] == s[..|s| - 1][k..];
  }

  lemma TrimEndDropsFinalSpace(u: string, c: char)
    requires u != [] && IsSpace(c) && c !in u[..|u| - 1]
    ensures c !in TrimEnd(u)
  {
    var r := TrimEnd(u);
    var init := u[..|u| - 1];
    if |r| == |u| {
      assert r[|r| - 1] != c;
      assert r == init + [r[|r| - 1]];
    } else {
      assert r == init[..|r|];
      NotInPrefix(init, |r|, c);
    }
  }

  lemma NotInPrefix(x: string, n: nat, c: char)
    requires n <= |x| && c !in x
    ensures c !in x[..n]
  {
    forall i | 0 <= i < n
      ensures x[..n][i] != c
    {
      assert x[..n][i] == x[i];
    }
  }

  /** `d` occurs in `s` starting at index `i`. */
  predicate Occurs(s: string, d: string, i: int) {
    0 <= i && i + |d| <= |s| && s[i..i + |d|] == d
  }

  /** `d in s`. */
  predicate Contains(s: string, d: string) {
    exists i | 0 <= i <= |s| - |d| :: Occurs(s, d, i)
  }

  lemma OccursShift(s: string, d: string, i: int)
    requires s != [] && 1 <= i
    ensures Occurs(s, d, i) <==> Occurs(s[1..], d, i - 1)
  {
    if i + |d| <= |s| {
      assert s[1..][i - 1..i - 1 + |d|] == s[i..i + |d|];
    }
  }

  /** An occurrence of `d` inside a prefix of `s` is an occurrence in `s`, at the same index. */
  lemma OccursInPrefix(s: string, d: string, n: nat, j: int)
    requires n <= |s| && Occurs(s[..n], d, j)
    ensures Occurs(s, d, j)
  {
    assert s[..n][j..j + |d|] == s[j..j + |d|];
  }

  /** `s.find(d)`: the leftmost index at which `d` occurs, or None. */
  function Find(s: string, d: string): (r: Option<nat>)
    ensures r.Some? ==> Occurs(s, d, r.value)
    ensures r.Some? ==> forall j :: 0 <= j < r.value ==> !Occurs(s, d, j)
    ensures r.None? <==> !Contains(s, d)
    decreases |s|
  {
    if |s| < |d| then None
    else if s[..|d|] == d then Some(0)
    else
      var rest := Find(s[1..], d);
      assert forall j :: 1 <= j ==> (Occurs(s, d, j) <==> Occurs(s[1..], d, j - 1)) by {
        forall j | 1 <= j { OccursShift(s, d, j); }
      }
      match rest
      case None => None
      case Some(k) => Some(k + 1)
  }

  /** The inverse of splitting: `d.join(pieces)`. */
  function Join(pieces: seq<string>, d: string): string
    decreases |pieces|
  {
    if pieces == [] then []
    else if |pieces| == 1 then pieces[0]
    else pieces[0] + d + Join(pieces[1..], d)
  }

  /** No occurrence of `d` fits in the first `n` characters of `s` when none starts before `n - |d| + 1`. */
  lemma NoneInPrefix(s: string, d: string, n: nat)
    requires n <= |s|
    requires forall j :: 0 <= j && j + |d| <= n ==> !Occurs(s, d, j)
    ensures !Contains(s[..n], d)
  {
    forall j | 0 <= j <= n - |d|
      ensures !Occurs(s[..n], d, j)
    {
      if Occurs(s[..n], d, j) {
        OccursInPrefix(s, d, n, j);
      }
    }
  }

  /** What the leftmost occurrence at `i` tells about the text before and around it. */
  lemma LeftmostPiece(s: string, d: string, i: nat)
    requires |d| > 0 && Find(s, d) == Some(i)
    ensures s == s[..i] + d + s[i + |d|..]
    ensures !Contains(s[..i], d)
    ensures !Contains(s[..i] + d[..|d| - 1], d)
  {
    CutAtOccurrence(s, d, i);
    NoneInPrefix(s, d, i);
    var n := i + |d| - 1;
    PrefixOfCut(s[..i], d, s[i + |d|..]);
    assert s[..i] + d[..|d| - 1] == s[..n];
    NoneInPrefix(s, d, n);
  }

  lemma PrefixOfCut(a: string, d: string, b: string)
    requires |d| > 0
    ensures a + d[..|d| - 1] == (a + d + b)[..|a| + |d| - 1]
  {
  }

  lemma CutAtOccurrence(s: string, d: string, i: nat)
    requires Occurs(s, d, i)
    ensures s == s[..i] + d + s[i + |d|..]
  {
    assert s == s[..i] + s[i..i + |d|] + s[i + |d|..];
  }

  /**
   * `s.split(d)`: cut `s` at every non-overlapping occurrence of `d`, scanning
   * left to right. Python refuses an empty separator, hence the requirement.
   */
  function SplitOn(s: string, d: string): (r: seq<string>)
    requires |d| > 0
    ensures |r| >= 1
    ensures Join(r, d) == s
    ensures forall k :: 0 <= k < |r| ==> !Contains(r[k], d)
    ensures forall k :: 0 <= k < |r| - 1 ==> !Contains(r[k] + d[..|d| - 1], d)
    ensures |r| == 1 <==> !Contains(s, d)
    decreases |s|
  {
    match Find(s, d)
    case None => [s]
    case Some(i) =>
      var rest := SplitOn(s[i + |d|..], d);
      LeftmostPiece(s, d, i);
      assert ([s[..i]] + rest)[1..] == rest;
      [s[..i]] + rest
  }

  /** The index of the first line break in `s`, or `|s|` when there is none. */
  function NextNewline(s: string): (r: nat)
    ensures r <= |s| && '\n' !in s[..r]
    ensures r < |s| ==> s[r] == '\n'
    decreases |s|
  {
    if s == [] || s[0] == '\n' then 0
    else
      var k := NextNewline(s[1..]);
      assert s[..k + 1] == [s[0]] + s[1..][..k];
      k + 1
  }

  /** A non-empty line that holds a line break at most as its last character. */
  predicate OneLine(line: string) {
    line != [] && '\n' !in line[..|line| - 1]
  }

  predicate EndsWithNewline(s: string) {
    s != [] && s[|s| - 1] == '\n'
  }

  /** `a + b + ...`: the text a list of lines came from. */
  function Concat(lines: seq<string>): string
    decreases |lines|
  {
    if lines == [] then [] else lines[0] + Concat(lines[1..])
  }

  /**
   * The lines that `for line in f` yields for a file holding `text`: every
   * line keeps its line break, only the last may lack one, and an empty file
   * yields no line at all. Lines end at '\n' only; universal newlines ('\r'
   * and "\r\n" as line ends) are not modelled.
   */
  function Lines(text: string): (r: seq<string>)
    ensures Concat(r) == text
    ensures forall k :: 0 <= k < |r| ==> OneLine(r[k])
    ensures forall k :: 0 <= k < |r| - 1 ==> EndsWithNewline(r[k])
    decreases |text|
  {
    if text == [] then []
    else
      var i := NextNewline(text);
      if i == |text| then
        assert text[..|text| - 1] == text[..i][..|text| - 1];
        [text]
      else
        var first := text[..i + 1];
        assert first[..|first| - 1] == text[..i];
        assert text == first + text[i + 1..];
        [first] + Lines(text[i + 1..])
  }

  /** The properties in NextNewline's contract determine its result. */
  lemma NextNewlineAt(s: string, i: nat)
    requires i <= |s| && '\n' !in s[..i] && (i < |s| ==> s[i] == '\n')
    ensures NextNewline(s) == i
  {
  }

  /** Unfolding Lines once: the first line runs up to and including the first line break at `i`. */
  lemma LinesStep(text: string, i: nat)
    requires i < |text| && NextNewline(text) == i
    ensures Lines(text) == [text[..i + 1]] + Lines(text[i + 1..])
  {
  }

  /** A text that is empty or ends with a line break splits into lines independently of what follows it. */
  lemma {:induction false} LinesAppend(a: string, b: string)
    requires a == [] || a[|a| - 1] == '\n'
    ensures Lines(a + b) == Lines(a) + Lines(b)
    decreases |a|
  {
    if a == [] {
      assert Lines(a) == [];
      assert a + b == b;
    } else {
      var i := NextNewline(a);
      var s := a + b;
      var first, rest := a[..i + 1], a[i + 1..];
      assert s[..i] == a[..i];
      NextNewlineAt(s, i);
      assert rest == [] || rest[|rest| - 1] == a[|a| - 1];
      LinesAppend(rest, b);
      SplitConcat(a, b, i + 1);
      LinesStep(s, i);
      LinesStep(a, i);
      assert Lines(s) == [first] + Lines(rest + b);
      assert Lines(a) == [first] + Lines(rest);
      Associative([first], Lines(rest), Lines(b));
    }
  }

  /** A single line that ends with its only line break is one line. */
  lemma LinesOfOne(line: string)
    requires line != [] && line[|line| - 1] == '\n' && '\n' !in line[..|line| - 1]
    ensures Lines(line) == [line]
  {
    var i := NextNewline(line);
    assert line[..i + 1] == line;
    assert line[i + 1..] == [];
  }
}
