/**
 * The request handlers of app.py that address a post by its position in the
 * freshly loaded list: `detail`, `edit` and `delete`, and `create`, which
 * appends. Each handler is given the posts file and the values Flask would
 * hand it (the route's index, the submitted form) and returns what the
 * handler answers.
 */
module Board {
  import opened Optional
  import opened PostFormat
  import opened Storage

  /** The pages a handler redirects to. */
  datatype Route = BoardList | DetailOf(index: int)

  /** What a handler answers: a rendered page, a redirect or the 404 message. */
  datatype Response =
    | DetailPage(post: Post, index: int)
    | EditPage(post: Post, index: int)
    | Redirect(to: Route)
    | NotFound

  /** The positions the handlers accept: `0 <= index < len(posts)`. */
  predicate InRange(posts: seq<Post>, index: int) {
    0 <= index < |posts|
  }

  /** `posts` without the element at `index`, the rest in their order (`del posts[index]`). */
  function RemoveAt(posts: seq<Post>, index: int): (r: seq<Post>)
    requires InRange(posts, index)
    ensures |r| == |posts| - 1
    ensures forall k :: 0 <= k < index ==> r[k] == posts[k]
    ensures forall k :: index <= k < |r| ==> r[k] == posts[k + 1]
  {
    posts[..index] + posts[index + 1..]
  }

  lemma StorableUpdate(posts: seq<Post>, index: int, p: Post)
    requires AllStorable(posts) && Storable(p) && InRange(posts, index)
    ensures AllStorable(posts[index := p])
  {
  }

  lemma StorableRemove(posts: seq<Post>, index: int)
    requires AllStorable(posts) && InRange(posts, index)
    ensures AllStorable(RemoveAt(posts, index))
  {
  }

  /** `detail(index)`: the post at `index`, or 404 when there is none. */
  method Detail(store: PostFile, index: int) returns (r: Response)
    ensures r.NotFound? <==> !InRange(Load(store.contents), index)
    ensures InRange(Load(store.contents), index) ==> r == DetailPage(Load(store.contents)[index], index)
  {
    var posts := store.LoadPosts();
    if 0 <= index < |posts| {
      r := DetailPage(posts[index], index);
    } else {
      r := NotFound;
    }
  }

  /**
   * `edit(index)`. The form is None for a GET, which shows the post in the
   * edit form, and the submitted title and content for a POST, which
   * replaces the post and rewrites the file. Both answer 404 when `index`
   * is out of range, before looking at the form.
   */
  method Edit(store: PostFile, index: int, form: Option<Post>) returns (r: Response)
    modifies store
    ensures r.NotFound? <==> !InRange(Load(old(store.contents)), index)
    ensures !InRange(Load(old(store.contents)), index) || form.None? ==> store.contents == old(store.contents)
    ensures InRange(Load(old(store.contents)), index) && form.None? ==>
              r == EditPage(Load(old(store.contents))[index], index)
    ensures InRange(Load(old(store.contents)), index) && form.Some? ==>
              r == Redirect(DetailOf(index))
              && store.contents == Some(Serialize(Load(old(store.contents))[index := form.value]))
    ensures InRange(Load(old(store.contents)), index) && form.Some? && Storable(form.value) ==>
              Load(store.contents) == Load(old(store.contents))[index := form.value]
  {
    var posts := store.LoadPosts();
    if !(0 <= index < |posts|) {
      return NotFound;
    }
    match form
    case Some(submitted) =>
      var edited := posts[index := submitted];
      if Storable(submitted) {
        LoadedStorable(store.contents);
        StorableUpdate(posts, index, submitted);
      }
      store.SaveAllPosts(edited);
      r := Redirect(DetailOf(index));
    case None =>
      r := EditPage(posts[index], index);
  }

  /**
   * `delete(index)`: remove the post at `index` and rewrite the file; an
   * index out of range changes nothing. Either way it redirects to the list.
   */
  method Delete(store: PostFile, index: int) returns (r: Response)
    modifies store
    ensures r == Redirect(BoardList)
    ensures !InRange(Load(old(store.contents)), index) ==> store.contents == old(store.contents)
    ensures InRange(Load(old(store.contents)), index) ==>
              store.contents == Some(Serialize(RemoveAt(Load(old(store.contents)), index)))
              && Load(store.contents) == RemoveAt(Load(old(store.contents)), index)
  {
    var posts := store.LoadPosts();
    if 0 <= index < |posts| {
      var remaining := RemoveAt(posts, index);
      LoadedStorable(store.contents);
      StorableRemove(posts, index);
      store.SaveAllPosts(remaining);
    }
    r := Redirect(BoardList);
  }

  /** `create` on submit: append the post as given (the title is not trimmed) and redirect to the list. */
  method Create(store: PostFile, title: string, content: string) returns (r: Response)
    modifies store
    ensures r == Redirect(BoardList)
    ensures store.contents == Some(TextOf(old(store.contents)) + FormatLine(Post(title, content)))
    ensures EndsCleanly(old(store.contents)) && Storable(Post(title, content)) ==>
              Load(store.contents) == Load(old(store.contents)) + [Post(title, content)]
  {
    store.SavePost(title, content);
    r := Redirect(BoardList);
  }
}
