# flask_board storage and post handlers in Dafny

This project models the storage core of the flask_board bulletin board, the
single Flask application `app.py`. The board keeps its posts in a text file,
`posts.txt`, with one post per line written as `title|||content`. The model
covers three parts:

- the three functions that read and write that file (`load_posts`,
  `save_post`, `save_all_posts`);
- the handlers that address a post by its position in the freshly loaded
  list (`detail`, `edit`, `delete`);
- the submit branch of `create`.

The model is split into four files:

- `text.dfy` (modules `Optional`, `SeqFacts`, `Text`) models the Python behaviour the
  format depends on:
  - `str.strip()`, using the `isspace` character set;
  - `str.split(sep)`, which cuts at every leftmost non-overlapping
    occurrence;
  - iteration over a text file, where each line keeps its line break.
- `post_format.dfy` (module `PostFormat`) holds:
  - the line format, where only a line that splits into exactly two pieces
    is a post;
  - the reading (`Parse`, `Load`) and writing (`Serialize`) of a whole
    file;
  - the round-trip theorems, together with what the format cannot carry.
- `storage.dfy` (module `Storage`) holds the class `PostFile`. Its field
  `contents` is the file's text, or `None` while the file does not exist.
  Its methods mirror the three storage functions, loops included.
- `board.dfy` (module `Board`) holds the handlers. Each one takes the file
  and what Flask hands it:
  - `detail`, `edit` and `delete` take the route's index;
  - `edit` also takes the submitted form, which is `None` for a GET;
  - `create` takes the submitted title and content.

  Each handler returns its response: a page, a redirect or the 404 answer.

Behaviours of the code worth noting, all of which the model keeps:

- The only storage format is the pipe format. app.py:3 imports `json`, and
  its comment says the import is meant to fix saving posts with line
  breaks. Nothing in the file uses it, so a line break inside a content
  still splits the post over several lines of the file
  (`PostFormat.LineBreakCutsContent`).
- A line is split on every `|||` (app.py:19) and kept only when it gives
  exactly two pieces (app.py:20). A post with `|||` in its title or content
  therefore disappears on the next load (`PostFormat.DelimiterInFieldIsLost`).
- The whole line is stripped at both ends before splitting (app.py:19).
  Whitespace at the start of a title or the end of a content is lost on
  reading. A title may still end, and a content start, with whitespace.
- `create` saves the title and the content exactly as submitted
  (app.py:74-76), with no trimming and no check for the delimiter.

Because nothing is escaped, only some posts survive being written and read
back. A post is *line-safe* when its line reads back as that post. That
holds when:

- neither field contains `|||`;
- the title does not end with `|`;
- the title does not start with whitespace;
- the content does not end with whitespace.

A post is *storable* when it is line-safe and neither field holds a line
break. A file *ends cleanly* when it is missing, empty, or ends with a line
break.

## Model

| member | source | states |
|---|---|---|
| Text.IsSpace | app.py:19 | the characters `str.isspace` accepts, listed by code point (a definition, read against Python's set) |
| Text.Strip | app.py:19 | a stripped line is no longer, and neither of its ends is whitespace |
| Text.StripExact | app.py:19 | stripping removes exactly the leading and trailing whitespace, and keeps everything between unchanged |
| Text.Find | app.py:19 | the leftmost index where the separator occurs, and None exactly when it does not occur |
| Text.SplitOn | app.py:19 | the pieces joined by the separator give the line back; no piece holds the separator; each cut is at the leftmost occurrence; one piece exactly when the line has no separator |
| Text.Lines | app.py:18 | the lines of a file concatenate to its text; each line is non-empty with a line break at most at its end; every line but the last ends with a line break |
| Text.LinesAppend | app.py:34-35 | text appended after a line break splits into its own lines, and the earlier lines are unchanged |
| PostFormat.FormatLine | app.py:35 | the line written for a post ends with a line break after title, delimiter and content, and is one line of the file when neither field holds a line break |
| PostFormat.ParseLine | app.py:19-22 | a line gives a post only when its stripped text is that title, the delimiter and that content, with the title and the content free of delimiters and the title not ending in a bar |
| PostFormat.ParseLineComplete | app.py:19-22 | conversely, every line whose stripped text is a title, the delimiter and a content, with both free of delimiters and the title not ending in a bar, gives exactly that post |
| PostFormat.FormatParse | app.py:19-22 | a post's own line reads back as the post if and only if the post is LineSafe |
| PostFormat.Parse | app.py:17-23 | a file never yields more posts than it has lines |
| PostFormat.ParseConcat | app.py:17-23 | posts come out in line order: the posts of two runs of lines are those of the first followed by those of the second |
| PostFormat.ParseAround | app.py:18-22 | each line contributes its own post, or nothing, in its own place, whatever surrounds it |
| PostFormat.Serialize | app.py:41-43 | the text written is empty exactly for no posts, and otherwise ends with a line break |
| PostFormat.SerializeConcat | app.py:41-43 | the text written for two lists is the text of the first followed by that of the second |
| PostFormat.Load | app.py:12-26 | the posts read from a file: none for a missing file, and never more than the file has lines |
| PostFormat.RoundTrip | app.py:40-43 | loading what save_all_posts wrote for storable posts gives back the same posts in the same order |
| PostFormat.AppendRoundTrip | app.py:33-35 | after a storable post is appended to a file that ends cleanly, the file loads as before followed by that post |
| PostFormat.LoadedStorable | app.py:12-23 | every post loaded from any file is storable |
| PostFormat.ReloadStable | app.py:120-129 | rewriting a file with the posts just loaded from it leaves what it loads as unchanged |
| PostFormat.TwoDelimitersRejected | app.py:19-20 | a line that holds two non-overlapping delimiters gives no post, whatever whitespace surrounds it |
| PostFormat.DelimiterInFieldIsLost | app.py:19-20 | a post with a delimiter in its title or content and no line break in either field, once written, loads as no post at all (with a line break, LineBreakCutsContent says what is read instead) |
| PostFormat.LineBreakCutsContent | app.py:18-19 | a line break in a content cuts the post there, and the rest is read as lines of its own |
| Storage.PostFile.LoadPosts | app.py:12-26 | the loop returns the posts the file stands for; a missing file gives []; there are never more posts than lines |
| Storage.PostFile.SavePost | app.py:33-35 | the file becomes its old text, or empty text when it was missing, plus the post's one line; it then ends cleanly; when the old file ended cleanly, a storable post loads as the old posts plus that post |
| Storage.PostFile.SaveAllPosts | app.py:40-43 | the file becomes exactly the concatenation of the posts' lines, and storable posts load back as the list given |
| Board.RemoveAt | app.py:152 | removing at an index keeps the posts before it and shifts those after it down by one |
| Board.Detail | app.py:95-113 | 404 if and only if the index is outside the loaded list; otherwise the post at that index |
| Board.Edit | app.py:117-144 | 404 if and only if the index is out of range, with the file untouched; a GET leaves the file alone and shows the post; a POST rewrites the file with the list updated at that index only, redirects to the detail page, and a storable form reloads as that updated list |
| Board.Delete | app.py:147-154 | always redirects to the list; out of range, the file is unchanged; in range, the file holds the list without that post and reloads as it |
| Board.Create | app.py:71-77 | appends the submitted post's line unchanged and redirects to the list |

## Left out

- Flask's routing, `redirect`, `url_for` and the rendering of templates.
  Responses are datatype values, and pages carry only the post and its index.
- The routes `home` and `board` and the GET branch of `create`. They only
  render or redirect and do not touch the file beyond `load_posts`.
- `app.run` and debug mode.
- Real file I/O. The file is an in-memory `Option<string>` field. The model
  leaves out UTF-8 decoding and encoding, and I/O errors other than a missing
  file (in the source these propagate as exceptions).
- `<int:index>` routing. Flask matches only non-negative integers, but the
  handlers still check `0 <= index`, and so does the model.
- A missing form field. `request.form['title']` answers 400 when the field is
  absent; the model takes the form as given.
- Concurrent requests and interleaved file writes: lost updates are not
  modelled.
- Text.Lines: ends lines at `\n` only. Python's text mode also ends lines at
  `\r` and `\r\n` (universal newlines), so `PostFormat.Load` and
  `Storage.PostFile.LoadPosts` read a file holding `\r` differently: for
  example `a|||b\rc|||d\n` is two posts in Python and none in the model.
- PostFormat.RoundTrip: does not model universal newlines. Python's text mode
  also ends lines at `\r` and `\r\n`, so on a real file the round trip also
  needs contents without `\r`. The model splits lines at `\n` only.
- The unused `json` import has no behaviour to model.
