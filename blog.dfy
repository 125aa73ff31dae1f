/**
 * The blog manager: the list of posts that one form both creates and updates
 * (depending on whether a post is being edited), comma-separated tags, the
 * search-and-category view, the 200-character content preview and the post count.
 */
module Blog {
  import opened Wrappers
  import opened JsString
  import opened JsArray
  import opened Storage

  const PreviewLength: nat := 200

  datatype Post = Post(
    id: int,
    title: string,
    author: string,
    category: string,
    content: string,
    tags: seq<string>,
    createdAt: string,
    updatedAt: string)

  /** The editor's fields as typed; `tags` is the raw comma-separated text. */
  datatype PostForm = PostForm(title: string, author: string, category: string, content: string, tags: string)

  // ---------------------------------------------------------------------------
  // Tags
  // ---------------------------------------------------------------------------

  /** `.map(tag => tag.trim())` */
  function TrimAll(parts: seq<string>): (r: seq<string>)
    ensures |r| == |parts|
    ensures forall i :: 0 <= i < |r| ==> r[i] == Trim(parts[i])
    ensures forall i :: 0 <= i < |r| ==> IsTrimmed(r[i])
  {
    seq(|parts|, i requires 0 <= i < |parts| => Trim(parts[i]))
  }

  /** A tag as the parser produces it: trimmed and without a comma. */
  predicate IsTag(t: string) {
    IsTrimmed(t) && ',' !in t
  }

  /** `postTags ? postTags.split(',').map(tag => tag.trim()) : []` */
  function ParseTags(raw: string): (tags: seq<string>)
    ensures raw == "" ==> tags == []
    ensures raw != "" ==> |tags| == multiset(raw)[','] + 1
    ensures raw != "" ==>
              exists pieces :: && |pieces| == |tags| && Join(pieces, ",") == raw
                               && forall i :: 0 <= i < |tags| ==> ',' !in pieces[i] && tags[i] == Trim(pieces[i])
    ensures forall i :: 0 <= i < |tags| ==> IsTag(tags[i])
  {
    if raw == "" then []
    else
      var pieces := Split(raw, ',');
      SplitCount(raw, ',');
      JoinSplit(raw, ',');
      var tags := TrimAll(pieces);
      assert forall i :: 0 <= i < |tags| ==> ',' !in tags[i] by {
        forall i | 0 <= i < |tags|
          ensures ',' !in tags[i]
        {
          var a, b :| 0 <= a <= b <= |pieces[i]| && tags[i] == pieces[i][a..b];
        }
      }
      tags
  }

  /** Splitting `t + ", " + rest` at commas: `t`, then the pieces of `rest` with a space on the first. */
  lemma SplitOfJoinStep(t: string, rest: string)
    requires ',' !in t
    ensures Split(t + ", " + rest, ',') == [t] + ([[' '] + Split(rest, ',')[0]] + Split(rest, ',')[1..])
  {
    assert t + ", " + rest == t + [','] + ([' '] + rest);
    SplitAppend(t, [' '] + rest, ',');
    SplitWithoutSeparator(t, ',');
    assert ([' '] + rest)[0] == ' ' && ([' '] + rest)[1..] == rest;
  }

  /** Trimming those pieces: the leading space of the second piece goes. */
  lemma TrimAllOfJoinStep(tags: seq<string>, r: seq<string>)
    requires |tags| >= 2 && |r| >= 1 && IsTrimmed(tags[0])
    requires TrimAll(r) == tags[1..]
    ensures TrimAll([tags[0]] + ([[' '] + r[0]] + r[1..])) == tags
  {
    var pieces := [tags[0]] + ([[' '] + r[0]] + r[1..]);
    var trimmed := TrimAll(pieces);
    assert |pieces| == |r| + 1 == |tags| == |trimmed|;
    forall i | 0 <= i < |tags|
      ensures trimmed[i] == tags[i]
    {
      if i == 0 {
        TrimOfTrimmed(tags[0]);
      } else if i == 1 {
        TrimAfterSpace(' ', r[0]);
        assert Trim(r[0]) == TrimAll(r)[0];
      } else {
        assert pieces[i] == r[i - 1];
        assert Trim(r[i - 1]) == TrimAll(r)[i - 1];
      }
    }
  }

  /** The pieces of the joined tags, trimmed, are the tags again. */
  lemma {:induction false} TrimmedPiecesOfJoin(tags: seq<string>)
    requires |tags| >= 1
    requires forall i :: 0 <= i < |tags| ==> IsTag(tags[i])
    ensures TrimAll(Split(Join(tags, ", "), ',')) == tags
  {
    if |tags| == 1 {
      SplitWithoutSeparator(tags[0], ',');
      TrimOfTrimmed(tags[0]);
    } else {
      var joined := Join(tags[1..], ", ");
      TrimmedPiecesOfJoin(tags[1..]);
      assert Join(tags, ", ") == tags[0] + ", " + joined;
      SplitOfJoinStep(tags[0], joined);
      TrimAllOfJoinStep(tags, Split(joined, ','));
    }
  }

  /**
   * The editor shows a post's tags joined with ", " (`post.tags.join(', ')`); parsing
   * that text gives the same tags back, except for the one list `[""]`, whose join
   * is empty and parses as no tags.
   */
  lemma JoinedTagsParseBack(tags: seq<string>)
    requires forall i :: 0 <= i < |tags| ==> IsTag(tags[i])
    requires tags != [""]
    ensures ParseTags(Join(tags, ", ")) == tags
  {
    if |tags| >= 1 {
      TrimmedPiecesOfJoin(tags);
      if |tags| >= 2 {
        assert Join(tags, ", ") == tags[0] + ", " + Join(tags[1..], ", ");
      } else {
        assert tags[0] != "";
      }
    }
  }

  // ---------------------------------------------------------------------------
  // Posts built from the form
  // ---------------------------------------------------------------------------

  /**
   * The post the create branch builds. Its `createdAt` and `updatedAt` are both
   * taken from the one clock reading `now`.
   */
  function NewPost(id: int, form: PostForm, now: string): (p: Post)
    ensures p.id == id && p.createdAt == now && p.updatedAt == now
    ensures p.title == form.title && p.author == form.author
    ensures p.category == form.category && p.content == form.content
    ensures p.tags == ParseTags(form.tags)
  {
    Post(id, form.title, form.author, form.category, form.content, ParseTags(form.tags), now, now)
  }

  /** The update branch: the form's fields over the old post, same id and creation time. */
  function UpdatedPost(old_: Post, form: PostForm, now: string): (p: Post)
    ensures p.id == old_.id && p.createdAt == old_.createdAt && p.updatedAt == now
    ensures p.title == form.title && p.author == form.author
    ensures p.category == form.category && p.content == form.content
    ensures p.tags == ParseTags(form.tags)
  {
    NewPost(old_.id, form, old_.createdAt).(updatedAt := now)
  }

  /** What `editPost` puts into the editor. */
  function FormOf(p: Post): PostForm {
    PostForm(p.title, p.author, p.category, p.content, Join(p.tags, ", "))
  }

  /** Opening a post in the editor and saving it unchanged only stamps `updatedAt`. */
  lemma ResubmitUnchanged(p: Post, now: string)
    requires forall i :: 0 <= i < |p.tags| ==> IsTag(p.tags[i])
    requires p.tags != [""]
    ensures UpdatedPost(p, FormOf(p), now) == p.(updatedAt := now)
  {
    JoinedTagsParseBack(p.tags);
  }

  // ---------------------------------------------------------------------------
  // Update and delete on the list
  // ---------------------------------------------------------------------------

  function WithId(id: int): Post -> bool {
    (p: Post) => p.id == id
  }

  function WithoutId(id: int): Post -> bool {
    (p: Post) => p.id != id
  }

  predicate HasPost(posts: seq<Post>, id: int) {
    exists i :: 0 <= i < |posts| && posts[i].id == id
  }

  /** `blogPosts.findIndex(post => post.id === id)` */
  function IndexOfPost(posts: seq<Post>, id: int): (i: int)
    ensures -1 <= i < |posts|
    ensures i == -1 <==> !HasPost(posts, id)
    ensures i >= 0 ==> posts[i].id == id && !HasPost(posts[..i], id)
  {
    FindIndex(posts, WithId(id))
  }

  /** The list after the update branch: the first post with the id is rewritten, nothing else moves. */
  function UpdatePosts(posts: seq<Post>, id: int, form: PostForm, now: string): (r: seq<Post>)
    ensures |r| == |posts|
    ensures !HasPost(posts, id) ==> r == posts
    ensures forall j :: 0 <= j < |posts| && j != IndexOfPost(posts, id) ==> r[j] == posts[j]
    ensures forall j :: 0 <= j < |posts| ==> r[j].id == posts[j].id && r[j].createdAt == posts[j].createdAt
    ensures IndexOfPost(posts, id) >= 0 ==>
              r[IndexOfPost(posts, id)] == UpdatedPost(posts[IndexOfPost(posts, id)], form, now)
  {
    var i := IndexOfPost(posts, id);
    if i == -1 then posts else posts[i := UpdatedPost(posts[i], form, now)]
  }

  /** `blogPosts.filter(post => post.id !== id)` */
  function RemovePost(posts: seq<Post>, id: int): (r: seq<Post>)
    ensures !HasPost(r, id)
    ensures IsSubsequence(r, posts)
    ensures forall x :: multiset(r)[x] == if x.id != id then multiset(posts)[x] else 0
    ensures !HasPost(posts, id) ==> r == posts
  {
    FilterSpec(posts, WithoutId(id));
    if !HasPost(posts, id) then FilterKeepsAll(posts, WithoutId(id)); Filter(posts, WithoutId(id))
    else Filter(posts, WithoutId(id))
  }

  /**
   * `deletePost` leaves `editingPostId` alone, so deleting the post being edited
   * makes the next save find nothing to update: the list stays as the delete left it.
   */
  lemma SaveAfterDeletingEditedPost(posts: seq<Post>, id: int, form: PostForm, now: string)
    ensures UpdatePosts(RemovePost(posts, id), id, form, now) == RemovePost(posts, id)
  {
  }

  // ---------------------------------------------------------------------------
  // Search, category and preview
  // ---------------------------------------------------------------------------

  /** The search test of `renderPosts`, for a term that is already lower-case. */
  predicate MatchesTerm(p: Post, term: string) {
    || Includes(Lower(p.title), term)
    || Includes(Lower(p.author), term)
    || Includes(Lower(p.content), term)
    || exists i :: 0 <= i < |p.tags| && Includes(Lower(p.tags[i]), term)
  }

  /** Shown by the search box and the category select together ("" means "any"). */
  predicate Shown(p: Post, search: string, category: string) {
    && (Lower(search) == "" || MatchesTerm(p, Lower(search)))
    && (category == "" || p.category == category)
  }

  function SearchBy(term: string): Post -> bool {
    (p: Post) => MatchesTerm(p, term)
  }

  function InCategory(category: string): Post -> bool {
    (p: Post) => p.category == category
  }

  function ShownBy(search: string, category: string): Post -> bool {
    (p: Post) => Shown(p, search, category)
  }

  /** `renderPosts`: the search filter when there is a term, then the category filter when one is chosen. */
  function VisiblePosts(posts: seq<Post>, search: string, category: string): (r: seq<Post>)
    ensures |r| <= |posts|
    ensures category != "" ==> forall i :: 0 <= i < |r| ==> r[i].category == category
    ensures Lower(search) != "" ==> forall i :: 0 <= i < |r| ==> MatchesTerm(r[i], Lower(search))
    ensures Lower(search) == "" && category == "" ==> r == posts
  {
    var term := Lower(search);
    var bySearch := if term != "" then Filter(posts, SearchBy(term)) else posts;
    if category != "" then
      var r := Filter(bySearch, InCategory(category));
      forall i | 0 <= i < |r|
        ensures r[i] in bySearch
      {
        FilterMembership(bySearch, InCategory(category), r[i]);
      }
      r
    else
      bySearch
  }

  /** The two optional filters of `renderPosts` act as one filter by `Shown`. */
  lemma VisiblePostsSpec(posts: seq<Post>, search: string, category: string)
    ensures VisiblePosts(posts, search, category) == Filter(posts, ShownBy(search, category))
    ensures IsSubsequence(VisiblePosts(posts, search, category), posts)
    ensures forall x :: multiset(VisiblePosts(posts, search, category))[x]
                        == if Shown(x, search, category) then multiset(posts)[x] else 0
  {
    var term := Lower(search);
    var shown := ShownBy(search, category);
    if term != "" && category != "" {
      FilterTwice(posts, SearchBy(term), InCategory(category), shown);
    } else if term != "" {
      FilterAgree(posts, SearchBy(term), shown);
    } else if category != "" {
      FilterAgree(posts, InCategory(category), shown);
    } else {
      FilterKeepsAll(posts, shown);
    }
    FilterSpec(posts, shown);
  }

  /** The content shown on a card: at most 200 characters, then "..." if anything was cut. */
  function Preview(content: string): (r: string)
    ensures |r| <= PreviewLength + 3
    ensures |content| <= PreviewLength ==> r == content
    ensures |content| > PreviewLength ==>
              |r| == PreviewLength + 3 && r[..PreviewLength] == content[..PreviewLength] && r[PreviewLength..] == "..."
  {
    if |content| > PreviewLength then content[..PreviewLength] + "..." else content
  }

  // ---------------------------------------------------------------------------
  // Statistics
  // ---------------------------------------------------------------------------

  datatype PostStats = PostStats(total: nat, published: nat)

  /** `updateStats`: every post counts, and every post counts as published. */
  function Stats(posts: seq<Post>): (st: PostStats)
    ensures st.total == |posts| && st.published == st.total
  {
    PostStats(|posts|, |posts|)
  }

  // ---------------------------------------------------------------------------
  // The page's state and its handlers
  // ---------------------------------------------------------------------------

  /** `if (editingPostId)`: JavaScript counts `null` and the id 0 as "not editing". */
  predicate IsEditing(editingPostId: Option<int>) {
    editingPostId.Some? && editingPostId.value != 0
  }

  /** The script's state: the posts, the id of the post under edit, and the localStorage snapshot. */
  class BlogApp {
    var posts: seq<Post>
    var editingPostId: Option<int>
    ghost var stored: Option<seq<Post>>

    ghost predicate Valid()
      reads this
    {
      Mirrors(stored, posts)
    }

    /** Script start: the saved posts, nothing under edit. */
    constructor (saved: Option<seq<Post>>)
      ensures Valid()
      ensures stored == saved && posts == Load(saved) && editingPostId == None
    {
      posts := Load(saved);
      stored := saved;
      editingPostId := None;
    }

    /**
     * The form's submit handler. Editing: update the post under edit if it still
     * exists and leave edit mode. Not editing: put a new post in front. The list is
     * saved either way.
     */
    method Submit(form: PostForm, newId: int, now: string)
      requires Valid()
      modifies this
      ensures Valid()
      ensures stored == Some(posts)
      ensures IsEditing(old(editingPostId)) ==>
                posts == UpdatePosts(old(posts), old(editingPostId).value, form, now) && editingPostId == None
      ensures !IsEditing(old(editingPostId)) ==>
                posts == [NewPost(newId, form, now)] + old(posts) && editingPostId == old(editingPostId)
      ensures |posts| == if IsEditing(old(editingPostId)) then |old(posts)| else |old(posts)| + 1
    {
      if IsEditing(editingPostId) {
        var index := IndexOfPost(posts, editingPostId.value);
        if index != -1 {
          posts := posts[index := UpdatedPost(posts[index], form, now)];
        }
        editingPostId := None;
      } else {
        posts := [NewPost(newId, form, now)] + posts;
      }
      stored := Some(posts);
    }

    /** The cancel button: leave edit mode. */
    method Cancel()
      requires Valid()
      modifies this
      ensures Valid()
      ensures posts == old(posts) && stored == old(stored) && editingPostId == None
    {
      editingPostId := None;
    }

    /** `editPost`: enter edit mode for the post, if there is one with that id. */
    method EditPost(id: int)
      requires Valid()
      modifies this
      ensures Valid()
      ensures posts == old(posts) && stored == old(stored)
      ensures editingPostId == if HasPost(posts, id) then Some(id) else old(editingPostId)
    {
      var index := IndexOfPost(posts, id);
      if index == -1 {
        return;
      }
      editingPostId := Some(id);
    }

    /** `deletePost`: once confirmed, every post with the id goes and the list is saved; edit mode is kept. */
    method DeletePost(id: int, confirmed: bool)
      requires Valid()
      modifies this
      ensures Valid()
      ensures !confirmed ==> unchanged(this)
      ensures confirmed ==> posts == RemovePost(old(posts), id) && stored == Some(posts)
      ensures editingPostId == old(editingPostId)
    {
      if confirmed {
        posts := RemovePost(posts, id);
        stored := Some(posts);
      }
    }
  }
}
