/**
 * `AppState`: the application's post index and its colour theme. The theme is a
 * reactive cell the toggle overwrites in place; the queries hand over to the index.
 */
module State {
  import opened Wrappers
  import opened Markdown
  import opened Index

  const Light: string := "light"
  const Dark: string := "dark"

  /** The theme after a toggle: `light` becomes `dark`, anything else becomes `light`. */
  function Toggled(theme: string): (r: string)
    ensures r == Light || r == Dark
    ensures r == Dark <==> theme == Light
  {
    if theme == Light then Dark else Light
  }

  /** From either theme, toggling twice comes back to it. */
  lemma ToggleTwice(theme: string)
    requires theme == Light || theme == Dark
    ensures Toggled(Toggled(theme)) == theme
  {
  }

  /** Any other stored value is replaced by `light`, and the next toggle gives `dark`. */
  lemma ToggleRepairsUnknownTheme(theme: string)
    requires theme != Light && theme != Dark
    ensures Toggled(theme) == Light && Toggled(Toggled(theme)) == Dark
  {
  }

  class AppState {
    var postIndex: PostIndex
    var theme: string

    /** `AppState::new()` (also its `Default`): an empty index and the light theme. */
    constructor ()
      ensures postIndex == Empty() && theme == Light
    {
      postIndex := Empty();
      theme := Light;
    }

    /** `toggle_theme`: reads the theme and writes back the other one; the index is untouched. */
    method ToggleTheme()
      modifies this
      ensures theme == Toggled(old(theme))
      ensures postIndex == old(postIndex)
    {
      var current := theme;
      var newTheme := if current == Light then Dark else Light;
      theme := newTheme;
    }

    /** `get_post_by_slug`: the index's answer, the first post that answers to `slug`. */
    function GetPostBySlug(slug: string): (r: Option<Post>)
      reads this
      ensures r == Index.GetPostBySlug(postIndex, slug)
      ensures r.Some? ==> SlugMatches(r.value, slug) && r.value in postIndex.posts
      ensures r.None? <==> forall j :: 0 <= j < |postIndex.posts| ==> !SlugMatches(postIndex.posts[j], slug)
    {
      Index.GetPostBySlug(postIndex, slug)
    }

    /** `get_posts_by_tag`: the index's answer. */
    function GetPostsByTag(tag: string): (r: seq<Post>)
      reads this
      ensures r == Index.GetPostsByTag(postIndex, tag)
      ensures forall p :: p in r ==> p in postIndex.posts
    {
      Index.GetPostsByTag(postIndex, tag)
    }

    /** `get_posts_by_category`: the index's answer. */
    function GetPostsByCategory(category: string): (r: seq<Post>)
      reads this
      ensures r == Index.GetPostsByCategory(postIndex, category)
      ensures forall p :: p in r ==> p in postIndex.posts
    {
      Index.GetPostsByCategory(postIndex, category)
    }

    /** `get_recent_posts`: the index's answer, at most `count` posts. */
    function GetRecentPosts(count: nat): (r: seq<Post>)
      reads this
      ensures r == Index.GetRecentPosts(postIndex, count)
      ensures |r| <= count && forall p :: p in r ==> p in postIndex.posts
    {
      Index.GetRecentPosts(postIndex, count)
    }
  }
}
