/**
 * frontend/pages/blog/index.js: the featured post, the category selection
 * the page keeps in state, and what it renders. The grid maps over the whole
 * `posts` array, so the stored selection never reaches the screen.
 */
module BlogIndex {
  import opened Wrappers
  import opened Lists

  /** The fields of a post the page reads. */
  datatype PostCard = PostCard(id: int, slug: string, category: string)

  /** `post => post.category === category && post.id !== featuredPost.id`. */
  function ListedIn(category: string, featured: PostCard): PostCard -> bool
  {
    (p: PostCard) => p.category == category && p.id != featured.id
  }

  /**
   * The selection `handleCategoryChange` stores. On an empty array the
   * filter callback never runs, so `featuredPost.id` is never read.
   */
  function SelectPosts(posts: seq<PostCard>, category: string): (r: seq<PostCard>)
    ensures category == "all" ==> r == Rest(posts)
    ensures category != "all" && |posts| > 0 ==>
              forall p :: p in r <==> p in posts && p.category == category && p.id != posts[0].id
    ensures category != "all" && |posts| > 0 ==>
              forall p :: multiset(r)[p] ==
                if p.category == category && p.id != posts[0].id then multiset(posts)[p] else 0
    ensures |posts| == 0 ==> r == []
    ensures SubseqOf(r, posts)
  {
    if category == "all" then
      RestSubseq(posts);
      Rest(posts)
    else if |posts| == 0 then []
    else
      FilterSubseq(posts, ListedIn(category, posts[0]));
      FilterCount(posts, ListedIn(category, posts[0]));
      Filter(posts, ListedIn(category, posts[0]))
  }

  predicate DistinctIds(posts: seq<PostCard>)
  {
    forall i, j :: 0 <= i < j < |posts| ==> posts[i].id != posts[j].id
  }

  /** With distinct ids the featured post is in neither selection. */
  lemma FeaturedNotSelected(posts: seq<PostCard>, category: string)
    requires |posts| > 0 && DistinctIds(posts)
    ensures posts[0] !in SelectPosts(posts, category)
  {
  }

  /** What the page shows. */
  datatype View = NoPosts | Grid(cards: seq<PostCard>)

  /** The page state: the posts it imported, the active category and the stored selection. */
  class BlogPage {
    const posts: seq<PostCard>
    var activeCategory: string
    var filteredPosts: seq<PostCard>

    /** The stored selection always belongs to the active category. */
    predicate Valid()
      reads this
    {
      filteredPosts == SelectPosts(posts, activeCategory)
    }

    /** `useState('all')`, `useState(posts.slice(1))`. */
    constructor(posts: seq<PostCard>)
      ensures Valid()
      ensures this.posts == posts && activeCategory == "all" && filteredPosts == Rest(posts)
    {
      this.posts := posts;
      activeCategory := "all";
      filteredPosts := Rest(posts);
    }

    /** `featuredPost = posts[0]`. */
    function FeaturedPost(): (r: Option<PostCard>)
      reads this
      ensures r.Some? <==> |posts| > 0
      ensures r.Some? ==> r.value == posts[0]
    {
      First(posts)
    }

    /** `handleCategoryChange(category)`. */
    method HandleCategoryChange(category: string)
      modifies this
      ensures Valid()
      ensures activeCategory == category && filteredPosts == SelectPosts(posts, category)
      ensures Render() == old(Render())
    {
      activeCategory := category;
      filteredPosts := SelectPosts(posts, category);
    }

    /** The rendered page, which does not depend on the category state: the empty state when there are no posts, else a card for every post, the featured one included. */
    function Render(): (v: View)
      reads this
      ensures v.NoPosts? <==> |posts| == 0
      ensures v.Grid? ==> v.cards == posts
    {
      if |posts| == 0 then NoPosts else Grid(posts)
    }
  }
}
