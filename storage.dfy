/**
 * The posts file itself (posts.txt) and the three functions of app.py that
 * touch it: `load_posts`, `save_post` and `save_all_posts`. The file is held
 * in memory as its text, or None while it does not exist.
 */
module Storage {
  import opened Optional
  import opened Text
  import opened PostFormat

  class PostFile {
    /** The text of posts.txt, or None when the file does not exist. */
    var contents: Option<string>

    constructor (initial: Option<string>)
      ensures contents == initial
    {
      contents := initial;
    }

    /**
     * `load_posts`: read the file line by line and keep every line that
     * splits into a title and a content; a missing file gives no posts.
     */
    method LoadPosts() returns (posts: seq<Post>)
      ensures posts == Load(contents)
      ensures contents.None? ==> posts == []
      ensures |posts| <= |Lines(TextOf(contents))|
    {
      match contents
      case None =>
        posts := [];
      case Some(text) =>
        var lines := Lines(text);
        posts := [];
        for i := 0 to |lines|
          invariant posts == Parse(lines[..i])
        {
          ParseExtend(lines, i);
          var parts := SplitOn(Strip(lines[i]), Delimiter);
          if |parts| == 2 {
            posts := posts + [Post(parts[0], parts[1])];
          }
        }
        assert lines[..|lines|] == lines;
    }

    /** `save_post`: append one line for the new post, creating the file if needed. */
    method SavePost(title: string, content: string)
      modifies this
      ensures contents == Some(TextOf(old(contents)) + FormatLine(Post(title, content)))
      ensures EndsCleanly(contents)
      ensures EndsCleanly(old(contents)) && Storable(Post(title, content)) ==>
                Load(contents) == Load(old(contents)) + [Post(title, content)]
    {
      if EndsCleanly(contents) && Storable(Post(title, content)) {
        AppendRoundTrip(contents, Post(title, content));
      }
      contents := Some(TextOf(contents) + FormatLine(Post(title, content)));
    }

    /** `save_all_posts`: truncate the file, then write one line per post, in list order. */
    method SaveAllPosts(posts: seq<Post>)
      modifies this
      ensures contents == Some(Serialize(posts))
      ensures EndsCleanly(contents)
      ensures AllStorable(posts) ==> Load(contents) == posts
    {
      contents := Some([]);
      for i := 0 to |posts|
        invariant contents == Some(Serialize(posts[..i]))
      {
        SerializeExtend(posts, i);
        contents := Some(contents.value + FormatLine(posts[i]));
      }
      assert posts[..|posts|] == posts;
      if AllStorable(posts) {
        RoundTrip(posts);
      }
    }
  }
}
