/**
 * The line format of posts.txt. A post is written as its title, the delimiter
 * `|||`, its content and a line break; a line is read back by stripping it
 * and splitting it on every `|||`, and only a line that falls into exactly
 * two pieces is a post. Nothing is escaped, so only some posts survive a
 * write followed by a read: `Storable` says which.
 */
module PostFormat {
  import opened Optional
  import opened Text
  import opened SeqFacts

  const Delimiter: string := "|||"

  datatype Post = Post(title: string, content: string)

  /** The line `save_post` and `save_all_posts` write for one post. */
  function FormatLine(p: Post): (line: string)
    ensures EndsWithNewline(line)
    ensures line[..|line| - 1] == p.title + Delimiter + p.content
    ensures '\n' !in p.title && '\n' !in p.content ==> OneLine(line)
  {
    p.title + Delimiter + p.content + "\n"
  }

  predicate EndsWithBar(s: string) {
    s != [] && s[|s| - 1] == '|'
  }

  /** Splitting `title + "|||" + content` on `|||` gives back exactly `[title, content]`. */
  predicate Splittable(title: string, content: string) {
    !Contains(title, Delimiter) && !Contains(content, Delimiter) && !EndsWithBar(title)
  }

  /** A post whose line reads back as that same post. */
  predicate LineSafe(p: Post) {
    Splittable(p.title, p.content) && Bare(p.title + Delimiter + p.content)
  }

  /** A post that survives being written to the file and read back, among any other lines. */
  predicate Storable(p: Post) {
    LineSafe(p) && '\n' !in p.title && '\n' !in p.content
  }

  predicate AllStorable(posts: seq<Post>) {
    forall k :: 0 <= k < |posts| ==> Storable(posts[k])
  }

  /** A piece that split leaves before a delimiter cannot end with a bar: the delimiter would have started one earlier. */
  lemma NoBarBeforeDelimiter(a: string)
    requires !Contains(a + Delimiter[..2], Delimiter)
    ensures !EndsWithBar(a)
  {
    if EndsWithBar(a) {
      var s := a + Delimiter[..2];
      assert s[|a| - 1..|a| + 2] == Delimiter;
      assert Occurs(s, Delimiter, |a| - 1);
    }
  }

  /**
   * The post one line of the file stands for: `line.strip().split('|||')`,
   * kept only when it has exactly two pieces.
   */
  function ParseLine(line: string): (r: Option<Post>)
    ensures r.Some? ==> Strip(line) == r.value.title + Delimiter + r.value.content
    ensures r.Some? ==> Splittable(r.value.title, r.value.content)
  {
    var parts := SplitOn(Strip(line), Delimiter);
    if |parts| == 2 then
      assert parts[1..] == [parts[1]];
      NoBarBeforeDelimiter(parts[0]);
      Some(Post(parts[0], parts[1]))
    else
      None
  }

  /** The delimiter right after a splittable title is the first one in the line. */
  lemma FindDelimiter(title: string, content: string)
    requires Splittable(title, content)
    ensures Find(title + Delimiter + content, Delimiter) == Some(|title|)
  {
    var s := title + Delimiter + content;
    var n := |title|;
    assert s[n..n + 3] == Delimiter;
    assert Occurs(s, Delimiter, n);
    forall j | 0 <= j < n
      ensures !Occurs(s, Delimiter, j)
    {
      if j + 3 <= n {
        assert s[j..j + 3] == title[j..j + 3];
        assert !Occurs(title, Delimiter, j);
      } else {
        assert s[n - 1] == title[n - 1];
      }
    }
    var r := Find(s, Delimiter);
    assert r.Some?;
    assert !(r.value > n);
  }

  /** ParseLine accepts every line whose stripped text is a splittable title, the delimiter and a content. */
  lemma ParseLineComplete(line: string, title: string, content: string)
    requires Strip(line) == title + Delimiter + content
    requires Splittable(title, content)
    ensures ParseLine(line) == Some(Post(title, content))
  {
    var s := Strip(line);
    FindDelimiter(title, content);
    assert s[..|title|] == title;
    assert s[|title| + 3..] == content;
    assert SplitOn(content, Delimiter) == [content];
  }

  /** Stripping a post's line leaves title, delimiter and content when those have no whitespace at the ends. */
  lemma StripFormatLine(p: Post)
    requires Bare(p.title + Delimiter + p.content)
    ensures Strip(FormatLine(p)) == p.title + Delimiter + p.content
  {
    var body := p.title + Delimiter + p.content;
    assert FormatLine(p) == [] + body + "\n";
    StripExact([], body, "\n");
  }

  /** A post's own line reads back as that post exactly when the post is LineSafe. */
  lemma FormatParse(p: Post)
    ensures ParseLine(FormatLine(p)) == Some(p) <==> LineSafe(p)
  {
    if LineSafe(p) {
      StripFormatLine(p);
      ParseLineComplete(FormatLine(p), p.title, p.content);
    }
  }

  /** The posts a file's lines stand for, in line order. */
  function Parse(lines: seq<string>): (posts: seq<Post>)
    ensures |posts| <= |lines|
    decreases |lines|
  {
    if lines == [] then [] else Contribution(lines[0]) + Parse(lines[1..])
  }

  /** What one line adds to the list of posts: its post, or nothing. */
  function Contribution(line: string): (posts: seq<Post>)
    ensures |posts| <= 1
  {
    match ParseLine(line)
    case Some(p) => [p]
    case None => []
  }

  /** Posts from earlier lines come first: parsing works line by line. */
  lemma {:induction false} ParseConcat(a: seq<string>, b: seq<string>)
    ensures Parse(a + b) == Parse(a) + Parse(b)
    decreases |a|
  {
    if a == [] {
      assert a + b == b;
    } else {
      assert (a + b)[0] == a[0];
      assert (a + b)[1..] == a[1..] + b;
      ParseConcat(a[1..], b);
      Associative(Contribution(a[0]), Parse(a[1..]), Parse(b));
    }
  }

  /** Each line contributes its own post in its own place, whatever the lines around it hold. */
  lemma ParseAround(lines: seq<string>, k: nat)
    requires k < |lines|
    ensures Parse(lines) == Parse(lines[..k]) + Contribution(lines[k]) + Parse(lines[k + 1..])
  {
    var before, after := lines[..k], lines[k + 1..];
    assert lines == before + ([lines[k]] + after);
    ParseConcat(before, [lines[k]] + after);
    ParseConcat([lines[k]], after);
    ParseOne(lines[k]);
    Associative(Parse(before), Contribution(lines[k]), Parse(after));
  }

  /** One more line read: the posts so far, then that line's contribution. */
  lemma ParseExtend(lines: seq<string>, i: nat)
    requires i < |lines|
    ensures Parse(lines[..i + 1]) == Parse(lines[..i]) + Contribution(lines[i])
  {
    assert lines[..i + 1] == lines[..i] + [lines[i]];
    ParseConcat(lines[..i], [lines[i]]);
    ParseOne(lines[i]);
  }

  lemma ParseOne(line: string)
    ensures Parse([line]) == Contribution(line)
  {
    assert [line][1..] == [];
  }

  /** The whole text `save_all_posts` writes for a list of posts. */
  function Serialize(posts: seq<Post>): (text: string)
    ensures text == [] <==> posts == []
    ensures text == [] || text[|text| - 1] == '\n'
    decreases |posts|
  {
    if posts == [] then [] else FormatLine(posts[0]) + Serialize(posts[1..])
  }

  lemma {:induction false} SerializeConcat(a: seq<Post>, b: seq<Post>)
    ensures Serialize(a + b) == Serialize(a) + Serialize(b)
    decreases |a|
  {
    if a == [] {
      assert a + b == b;
    } else {
      assert (a + b)[0] == a[0];
      assert (a + b)[1..] == a[1..] + b;
      SerializeConcat(a[1..], b);
      Associative(FormatLine(a[0]), Serialize(a[1..]), Serialize(b));
    }
  }

  /** One more post written: the text so far, then that post's line. */
  lemma SerializeExtend(posts: seq<Post>, i: nat)
    requires i < |posts|
    ensures Serialize(posts[..i + 1]) == Serialize(posts[..i]) + FormatLine(posts[i])
  {
    assert posts[..i + 1] == posts[..i] + [posts[i]];
    SerializeConcat(posts[..i], [posts[i]]);
    assert Serialize([posts[i]]) == FormatLine(posts[i]) + [];
  }

  /** The posts in a file that holds `text`; a missing file holds none. */
  function Load(file: Option<string>): (posts: seq<Post>)
    ensures file.None? ==> posts == []
    ensures |posts| <= |Lines(TextOf(file))|
  {
    match file
    case None => []
    case Some(text) => Parse(Lines(text))
  }

  /** The text of a file, where a missing file counts as empty (as append mode creates it). */
  function TextOf(file: Option<string>): string {
    match file
    case None => []
    case Some(text) => text
  }

  /** Missing, empty or ending with a line break: a new line appended to it stays a line of its own. */
  predicate EndsCleanly(file: Option<string>) {
    var t := TextOf(file);
    t == [] || t[|t| - 1] == '\n'
  }

  /** The line of a post without line breaks is one whole line of the file. */
  lemma LinesOfPost(p: Post)
    requires '\n' !in p.title && '\n' !in p.content
    ensures Lines(FormatLine(p)) == [FormatLine(p)]
  {
    var line := FormatLine(p);
    assert line[..|line| - 1] == p.title + Delimiter + p.content;
    LinesOfOne(line);
  }

  /** Reading back what `save_all_posts` wrote gives the same posts, in the same order. */
  lemma {:induction false} RoundTrip(posts: seq<Post>)
    requires AllStorable(posts)
    ensures Load(Some(Serialize(posts))) == posts
    decreases |posts|
  {
    if posts == [] {
      assert Lines([]) == [];
    } else {
      var p := posts[0];
      var line := FormatLine(p);
      var rest := Serialize(posts[1..]);
      assert Serialize(posts) == line + rest;
      assert AllStorable(posts[1..]);
      RoundTrip(posts[1..]);
      assert Parse(Lines(rest)) == posts[1..];
      LinesOfPost(p);
      LinesAppend(line, rest);
      assert Lines(line + rest) == [line] + Lines(rest);
      ParseConcat([line], Lines(rest));
      ParseOne(line);
      FormatParse(p);
      assert Contribution(line) == [p];
      assert posts == [p] + posts[1..];
    }
  }

  /** After appending a storable post to a cleanly ending file, the file reads as before followed by that post. */
  lemma AppendRoundTrip(file: Option<string>, p: Post)
    requires EndsCleanly(file) && Storable(p)
    ensures Load(Some(TextOf(file) + FormatLine(p))) == Load(file) + [p]
  {
    var t, line := TextOf(file), FormatLine(p);
    assert Load(file) == Parse(Lines(t));
    LinesAppend(t, line);
    LinesOfPost(p);
    assert Lines(t + line) == Lines(t) + [line];
    ParseConcat(Lines(t), [line]);
    ParseOne(line);
    FormatParse(p);
    assert Contribution(line) == [p];
  }

  /** Every post read from a line of the file is storable. */
  lemma ParsedLineStorable(line: string, p: Post)
    requires OneLine(line) && ParseLine(line) == Some(p)
    ensures Storable(p)
  {
    StripDropsFinalSpace(line, '\n');
  }

  lemma ContributionStorable(line: string)
    requires OneLine(line)
    ensures AllStorable(Contribution(line))
  {
    if ParseLine(line).Some? {
      ParsedLineStorable(line, ParseLine(line).value);
    }
  }

  lemma StorableConcat(a: seq<Post>, b: seq<Post>)
    requires AllStorable(a) && AllStorable(b)
    ensures AllStorable(a + b)
  {
  }

  lemma {:induction false} ParsedStorable(lines: seq<string>)
    requires forall k :: 0 <= k < |lines| ==> OneLine(lines[k])
    ensures AllStorable(Parse(lines))
    decreases |lines|
  {
    if lines != [] {
      var rest := lines[1..];
      assert forall k :: 0 <= k < |rest| ==> rest[k] == lines[k + 1];
      ParsedStorable(rest);
      ContributionStorable(lines[0]);
      StorableConcat(Contribution(lines[0]), Parse(rest));
    }
  }

  /** Whatever a file holds, every post loaded from it is storable. */
  lemma LoadedStorable(file: Option<string>)
    ensures AllStorable(Load(file))
  {
    if file.Some? {
      ParsedStorable(Lines(file.value));
    }
  }

  /** Rewriting a file with the posts just loaded from it does not change what it loads as. */
  lemma ReloadStable(file: Option<string>)
    ensures Load(Some(Serialize(Load(file)))) == Load(file)
  {
    LoadedStorable(file);
    RoundTrip(Load(file));
  }

  /** The delimiter right after the title is an occurrence in the line. */
  lemma DelimiterAt(t: string, c: string)
    ensures Occurs(t + Delimiter + c, Delimiter, |t|)
  {
    assert (t + Delimiter + c)[|t|..|t| + 3] == Delimiter;
  }

  /** An occurrence in the content is one in the line, shifted past the title and the delimiter. */
  lemma OccursAfter(t: string, c: string, j: int)
    requires Occurs(c, Delimiter, j)
    ensures Occurs(t + Delimiter + c, Delimiter, |t| + 3 + j)
  {
    var s := t + Delimiter + c;
    assert s[|t| + 3..] == c;
    assert s[|t| + 3 + j..|t| + 6 + j] == c[j..j + 3];
  }

  /** An occurrence in the title is one in the line, at the same index. */
  lemma OccursBefore(t: string, c: string, j: int)
    requires Occurs(t, Delimiter, j)
    ensures Occurs(t + Delimiter + c, Delimiter, j)
  {
    var s := t + Delimiter + c;
    assert s[..|t|] == t;
    assert s[j..j + 3] == t[j..j + 3];
  }

  /** With a delimiter in the title or the content, the text written for them holds two that do not overlap. */
  lemma TwoInBody(t: string, c: string) returns (i: int, j: int)
    requires Contains(t, Delimiter) || Contains(c, Delimiter)
    ensures Occurs(t + Delimiter + c, Delimiter, i) && Occurs(t + Delimiter + c, Delimiter, j) && i + 3 <= j
  {
    DelimiterAt(t, c);
    if Contains(c, Delimiter) {
      var q :| 0 <= q <= |c| - 3 && Occurs(c, Delimiter, q);
      OccursAfter(t, c, q);
      i, j := |t|, |t| + 3 + q;
    } else {
      var q :| 0 <= q <= |t| - 3 && Occurs(t, Delimiter, q);
      OccursBefore(t, c, q);
      i, j := q, |t|;
    }
  }

  /** An occurrence before the line break is one in the post's line. */
  lemma OccursInLine(p: Post, i: int)
    requires Occurs(p.title + Delimiter + p.content, Delimiter, i)
    ensures Occurs(FormatLine(p), Delimiter, i)
  {
    var line := FormatLine(p);
    var body := p.title + Delimiter + p.content;
    assert line == body + "\n";
    assert line[i..i + 3] == body[i..i + 3];
  }

  /** An occurrence that ends within the first `n` characters is one in that prefix. */
  lemma OccursInLongPrefix(s: string, d: string, n: nat, j: int)
    requires Occurs(s, d, j) && j + |d| <= n <= |s|
    ensures Occurs(s[..n], d, j)
  {
    assert s[..n][j..j + |d|] == s[j..j + |d|];
  }

  /** A delimiter consists of bars, which are not whitespace. */
  lemma BarAt(s: string, i: int)
    requires Occurs(s, Delimiter, i)
    ensures s[i] == '|' && s[i + 2] == '|' && !IsSpace(s[i]) && !IsSpace(s[i + 2])
  {
    assert s[i..i + 3][0] == s[i] && s[i..i + 3][2] == s[i + 2];
  }

  /** `lstrip()` keeps every delimiter, shifted by the whitespace it removes. */
  lemma TrimStartKeepsDelimiter(s: string, i: int)
    requires Occurs(s, Delimiter, i)
    ensures |s| - |TrimStart(s)| <= i
    ensures Occurs(TrimStart(s), Delimiter, i - (|s| - |TrimStart(s)|))
  {
    var u := TrimStart(s);
    var k := |s| - |u|;
    BarAt(s, i);
    assert k <= i;
    assert u == s[k..];
    OccursInSuffix(s, Delimiter, k, i);
  }

  /** `rstrip()` keeps every delimiter, at the same index. */
  lemma TrimEndKeepsDelimiter(u: string, i: int)
    requires Occurs(u, Delimiter, i)
    ensures Occurs(TrimEnd(u), Delimiter, i)
  {
    var n := |TrimEnd(u)|;
    BarAt(u, i);
    OccursInLongPrefix(u, Delimiter, n, i);
  }

  /** `strip()` removes only whitespace, so a delimiter of the line survives it, shifted by what was removed in front. */
  lemma StripKeepsDelimiter(s: string, i: int) returns (m: int)
    requires Occurs(s, Delimiter, i)
    ensures m == i - (|s| - |TrimStart(s)|)
    ensures Occurs(Strip(s), Delimiter, m)
  {
    TrimStartKeepsDelimiter(s, i);
    m := i - (|s| - |TrimStart(s)|);
    TrimEndKeepsDelimiter(TrimStart(s), m);
  }

  lemma CutAfterDelimiter(a: string, b: string)
    ensures (a + Delimiter + b)[|a| + 3..] == b
  {
  }

  /** An occurrence in a suffix of `s`, seen from where the suffix starts. */
  lemma OccursInSuffix(s: string, d: string, m: nat, i: int)
    requires m <= i && Occurs(s, d, i)
    ensures Occurs(s[m..], d, i - m)
  {
    assert s[m..][i - m..i - m + |d|] == s[i..i + |d|];
  }

  /** A line with two delimiters that do not overlap is no title, delimiter and content that split cleanly. */
  lemma TwoDelimiters(u: string, i: int, j: int, a: string, b: string)
    requires Occurs(u, Delimiter, i) && Occurs(u, Delimiter, j) && i + 3 <= j
    requires u == a + Delimiter + b
    ensures !Splittable(a, b)
  {
    if Splittable(a, b) {
      FindDelimiter(a, b);
      assert |a| <= i;
      CutAfterDelimiter(a, b);
      OccursInSuffix(u, Delimiter, |a| + 3, j);
    }
  }

  /** A line that still holds two delimiters that do not overlap is no post. */
  lemma TwoDelimitersRejected(s: string, i: int, j: int)
    requires Occurs(s, Delimiter, i) && Occurs(s, Delimiter, j) && i + 3 <= j
    ensures ParseLine(s).None?
  {
    var m := StripKeepsDelimiter(s, i);
    var n := StripKeepsDelimiter(s, j);
    if ParseLine(s).Some? {
      var r := ParseLine(s).value;
      TwoDelimiters(Strip(s), m, n, r.title, r.content);
    }
  }

  /**
   * Nothing is escaped: a post with a delimiter in its title or its content
   * and no line break in either field is written as one line that splits
   * into three or more pieces, so it is silently lost when read back.
   */
  lemma DelimiterInFieldIsLost(p: Post)
    requires Contains(p.title, Delimiter) || Contains(p.content, Delimiter)
    requires '\n' !in p.title && '\n' !in p.content
    ensures Load(Some(FormatLine(p))) == []
  {
    var line := FormatLine(p);
    LinesOfPost(p);
    ParseOne(line);
    var i, j := TwoInBody(p.title, p.content);
    OccursInLine(p, i);
    OccursInLine(p, j);
    TwoDelimitersRejected(line, i, j);
  }

  /**
   * A line break in the content ends the post's line early: the post reads
   * back with its content cut at the break, and what follows the break is
   * read as further lines of its own.
   */
  lemma LineBreakCutsContent(title: string, before: string, after: string)
    requires Storable(Post(title, before))
    ensures Load(Some(FormatLine(Post(title, before + "\n" + after))))
         == [Post(title, before)] + Load(Some(after + "\n"))
  {
    var first := FormatLine(Post(title, before));
    var rest := after + "\n";
    assert FormatLine(Post(title, before + "\n" + after)) == first + rest;
    LinesOfPost(Post(title, before));
    LinesAppend(first, rest);
    ParseConcat([first], Lines(rest));
    ParseOne(first);
    FormatParse(Post(title, before));
  }
}
