/** The aggregation helpers of the blog backend: statistics computed over a
    sequence of stored blog documents, with no I/O. */
module ListHelper {
  import Extrema

  /** A blog document as the store hands it out: its `_id`, the user-visible
      fields and the store's `__v` version counter.
      Unlike the controller's `Blog`, `author` is always present here: the
      helpers read it as a grouping key and never test for its absence, and
      the owner reference is left out because no helper reads it. */
  datatype BlogDoc = BlogDoc(id: string, title: string, author: string, url: string, likes: int, version: int)

  /** What `favoriteBlog` returns for a blog: the document with `_id`, `url`
      and `__v` taken out, so only `title`, `author` and `likes` remain. */
  datatype Summary = Summary(title: string, author: string, likes: int)

  /** `favoriteBlog`'s answer: the number `0` for no blogs, a summary otherwise. */
  datatype Favorite = Zero | Fav(summary: Summary)

  datatype AuthorBlogs = AuthorBlogs(author: string, blogs: int)

  datatype AuthorLikes = AuthorLikes(author: string, likes: int)

  /** `dummy`: answers 1 whatever it is given. */
  function Dummy(blogs: seq<BlogDoc>): (r: int)
    ensures r == 1
  {
    1
  }

  // ---------------------------------------------------------------------
  // totalLikes

  /** The arithmetic sum of the `likes` fields, first to last. */
  function SumLikes(blogs: seq<BlogDoc>): int
  {
    if |blogs| == 0 then 0 else SumLikes(blogs[..|blogs| - 1]) + blogs[|blogs| - 1].likes
  }

  /** `totalLikes`: adds up the likes from left to right, starting at 0. */
  method TotalLikes(blogs: seq<BlogDoc>) returns (sum: int)
    ensures sum == SumLikes(blogs)
  {
    sum := 0;
    for i := 0 to |blogs|
      invariant sum == SumLikes(blogs[..i])
    {
      assert blogs[..i + 1][..i] == blogs[..i];
      sum := sum + blogs[i].likes;
    }
    assert blogs[..|blogs|] == blogs;
  }

  lemma TotalLikesOfNothing()
    ensures SumLikes([]) == 0
  {
  }

  /** The total of two sequences put together is the sum of their totals. */
  lemma {:induction false} SumLikesConcat(a: seq<BlogDoc>, b: seq<BlogDoc>)
    ensures SumLikes(a + b) == SumLikes(a) + SumLikes(b)
    decreases |b|
  {
    if |b| == 0 {
      assert a + b == a;
    } else {
      var b' := b[..|b| - 1];
      assert (a + b)[..|a + b| - 1] == a + b';
      SumLikesConcat(a, b');
    }
  }

  /** The total does not depend on where one blog is placed: it is the first
      blog's likes plus the total of the rest. */
  lemma SumLikesCons(b: BlogDoc, rest: seq<BlogDoc>)
    ensures SumLikes([b] + rest) == b.likes + SumLikes(rest)
  {
    SumLikesConcat([b], rest);
    assert [b][..0] == [];
  }

  // ---------------------------------------------------------------------
  // favoriteBlog

  /** Position of the blog `favoriteBlog`'s reduction ends on. The reduction
      keeps its running candidate only when the candidate has strictly more
      likes than the next blog, so among equally liked blogs the last wins. */
  function FavoriteIndex(blogs: seq<BlogDoc>): (k: nat)
    requires |blogs| > 0
    ensures k < |blogs|
    ensures forall j :: 0 <= j < |blogs| ==> blogs[j].likes <= blogs[k].likes
    ensures forall j :: k < j < |blogs| ==> blogs[j].likes < blogs[k].likes
  {
    if |blogs| == 1 then 0
    else
      var k := FavoriteIndex(blogs[..|blogs| - 1]);
      if blogs[k].likes > blogs[|blogs| - 1].likes then k else |blogs| - 1
  }

  /** The summary `favoriteBlog` answers with: drops `_id`, `url` and `__v`
      and keeps title, author and likes. */
  function Project(b: BlogDoc): (r: Summary)
    ensures r.title == b.title && r.author == b.author && r.likes == b.likes
  {
    Summary(b.title, b.author, b.likes)
  }

  /** The projection keeps title, author and likes and forgets everything
      else: two documents project alike exactly when those three agree. */
  lemma ProjectKeepsOnlyVisibleFields(b1: BlogDoc, b2: BlogDoc)
    ensures Project(b1) == Project(b2) <==>
              b1.title == b2.title && b1.author == b2.author && b1.likes == b2.likes
    ensures Project(b1).title == b1.title && Project(b1).author == b1.author
    ensures Project(b1).likes == b1.likes
  {
  }

  /** `favoriteBlog`. */
  function FavoriteBlog(blogs: seq<BlogDoc>): (r: Favorite)
    ensures r == Zero <==> |blogs| == 0
    ensures r.Fav? ==>
              exists k :: 0 <= k < |blogs| && r.summary == Project(blogs[k])
                && (forall j :: 0 <= j < |blogs| ==> blogs[j].likes <= blogs[k].likes)
                && (forall j :: k < j < |blogs| ==> blogs[j].likes < blogs[k].likes)
  {
    if |blogs| == 0 then Zero else Fav(Project(blogs[FavoriteIndex(blogs)]))
  }

  /** The tie-break: if blog `k` has the most likes and no later blog has as
      many, `favoriteBlog` answers with blog `k`, even when earlier blogs tie. */
  lemma FavoriteIsLastMaximal(blogs: seq<BlogDoc>, k: nat)
    requires k < |blogs|
    requires forall j :: 0 <= j < |blogs| ==> blogs[j].likes <= blogs[k].likes
    requires forall j :: k < j < |blogs| ==> blogs[j].likes < blogs[k].likes
    ensures FavoriteBlog(blogs) == Fav(Project(blogs[k]))
  {
    var f := FavoriteIndex(blogs);
    assert blogs[k].likes <= blogs[f].likes;
  }

  /** Two blogs with equal likes: the second one is the favourite. */
  lemma FavoriteTieGoesToLater(first: BlogDoc, second: BlogDoc)
    requires first.likes == second.likes
    ensures FavoriteBlog([first, second]) == Fav(Project(second))
  {
    FavoriteIsLastMaximal([first, second], 1);
  }

  // ---------------------------------------------------------------------
  // grouping by author

  /** Every blog of `blogs` written by `author`, in input order: the group
      lodash's `groupBy(blogs, 'author')` files under that key. */
  function PostsBy(blogs: seq<BlogDoc>, author: string): (r: seq<BlogDoc>)
    ensures |r| <= |blogs|
    ensures forall i :: 0 <= i < |r| ==> r[i].author == author
  {
    if |blogs| == 0 then []
    else
      var last := blogs[|blogs| - 1];
      PostsBy(blogs[..|blogs| - 1], author) + (if last.author == author then [last] else [])
  }

  /** `PostsBy` keeps exactly the blogs `author` wrote. */
  lemma {:induction false} PostsByIsFilter(blogs: seq<BlogDoc>, author: string)
    ensures forall b :: b in PostsBy(blogs, author) <==> b in blogs && b.author == author
    decreases |blogs|
  {
    if |blogs| > 0 {
      var prefix := blogs[..|blogs| - 1];
      PostsByIsFilter(prefix, author);
      assert blogs == prefix + [blogs[|blogs| - 1]];
    }
  }

  /** One more blog at the end joins its own author's group and no other. */
  lemma PostsByAppend(blogs: seq<BlogDoc>, b: BlogDoc, author: string)
    ensures PostsBy(blogs + [b], author) == PostsBy(blogs, author) + (if b.author == author then [b] else [])
  {
    assert (blogs + [b])[..|blogs|] == blogs;
  }

  /** Someone who wrote none of the blogs has an empty group. */
  lemma {:induction false} PostsByAbsent(blogs: seq<BlogDoc>, author: string)
    requires forall i :: 0 <= i < |blogs| ==> blogs[i].author != author
    ensures PostsBy(blogs, author) == []
    decreases |blogs|
  {
    if |blogs| > 0 {
      PostsByAbsent(blogs[..|blogs| - 1], author);
    }
  }

  /** Number of blogs by `author`: `countBy(blogs, 'author')[author]`. */
  function CountBy(blogs: seq<BlogDoc>, author: string): nat
  {
    |PostsBy(blogs, author)|
  }

  /** Sum of the likes of `author`'s blogs. */
  function LikesBy(blogs: seq<BlogDoc>, author: string): int
  {
    SumLikes(PostsBy(blogs, author))
  }

  predicate NoDuplicates(xs: seq<string>)
  {
    forall i, j :: 0 <= i < j < |xs| ==> xs[i] != xs[j]
  }

  /** The distinct authors of `blogs`, in order of first appearance: the key
      order of the object lodash builds while grouping. */
  function Authors(blogs: seq<BlogDoc>): (r: seq<string>)
    ensures NoDuplicates(r)
    ensures forall i :: 0 <= i < |blogs| ==> blogs[i].author in r
    ensures forall k :: 0 <= k < |r| ==> FirstIndex(blogs, r[k]) < |blogs|
  {
    if |blogs| == 0 then []
    else
      var prefix := blogs[..|blogs| - 1];
      var a := Authors(prefix);
      var last := blogs[|blogs| - 1];
      assert forall i :: 0 <= i < |prefix| ==> prefix[i] == blogs[i];
      if last.author in a then a else a + [last.author]
  }

  /** The index in `blogs` where `author` first occurs, or `|blogs|` when
      `author` wrote none of them. */
  function FirstIndex(blogs: seq<BlogDoc>, author: string): (k: nat)
    ensures k <= |blogs|
    ensures k < |blogs| ==> blogs[k].author == author
    ensures forall j :: 0 <= j < k ==> blogs[j].author != author
  {
    if |blogs| == 0 then 0
    else
      var prefix := blogs[..|blogs| - 1];
      var k := FirstIndex(prefix, author);
      if k < |prefix| then k
      else if blogs[|blogs| - 1].author == author then |prefix|
      else |blogs|
  }

  /** An author earlier in `Authors(blogs)` occurs earlier in `blogs`. */
  lemma {:induction false} AuthorsInFirstAppearanceOrder(blogs: seq<BlogDoc>, i: nat, j: nat)
    requires i < j < |Authors(blogs)|
    ensures FirstIndex(blogs, Authors(blogs)[i]) < FirstIndex(blogs, Authors(blogs)[j])
    decreases |blogs|
  {
    var prefix := blogs[..|blogs| - 1];
    var a := Authors(prefix);
    var last := blogs[|blogs| - 1];
    var x, y := Authors(blogs)[i], Authors(blogs)[j];
    assert x == a[i];
    if j < |a| {
      assert y == a[j];
      AuthorsInFirstAppearanceOrder(prefix, i, j);
    } else {
      assert y == last.author && y !in a;
    }
  }

  // ---------------------------------------------------------------------
  // mostBlogs

  /** The per-author post counts, in author order (`Object.values(result)`). */
  function Counts(blogs: seq<BlogDoc>): (r: seq<int>)
    ensures |r| == |Authors(blogs)|
    ensures forall i :: 0 <= i < |r| ==> r[i] == CountBy(blogs, Authors(blogs)[i])
  {
    var authors := Authors(blogs);
    seq(|authors|, i requires 0 <= i < |authors| => CountBy(blogs, authors[i]))
  }

  /** `mostBlogs`: the author lodash's `maxBy` picks over the counted keys,
      together with `Math.max` of the counts. */
  function MostBlogs(blogs: seq<BlogDoc>): (r: AuthorBlogs)
    requires |blogs| > 0
    ensures exists i :: 0 <= i < |blogs| && blogs[i].author == r.author
    ensures r.blogs == CountBy(blogs, r.author)
  {
    var counts := Counts(blogs);
    var k := Extrema.FirstMaxIndex(counts);
    Extrema.MaxAtFirstMaxIndex(counts);
    AuthorBlogs(Authors(blogs)[k], Extrema.Max(counts))
  }

  /** Nobody wrote more blogs than the author `mostBlogs` names, and every
      author who appears earlier wrote strictly fewer. */
  lemma MostBlogsIsMaximal(blogs: seq<BlogDoc>)
    requires |blogs| > 0
    ensures forall i :: 0 <= i < |blogs| ==> CountBy(blogs, blogs[i].author) <= MostBlogs(blogs).blogs
    ensures exists k :: 0 <= k < |Authors(blogs)| && Authors(blogs)[k] == MostBlogs(blogs).author
              && forall j :: 0 <= j < k ==> CountBy(blogs, Authors(blogs)[j]) < MostBlogs(blogs).blogs
  {
    var authors := Authors(blogs);
    var counts := Counts(blogs);
    var k := Extrema.FirstMaxIndex(counts);
    Extrema.MaxAtFirstMaxIndex(counts);
    var r := MostBlogs(blogs);
    assert r == AuthorBlogs(authors[k], counts[k]);
    forall i | 0 <= i < |blogs|
      ensures CountBy(blogs, blogs[i].author) <= r.blogs
    {
      var j :| 0 <= j < |authors| && authors[j] == blogs[i].author;
      assert counts[j] <= counts[k];
    }
    assert forall j :: 0 <= j < k ==> counts[j] < counts[k];
  }

  /** An author who wrote strictly more blogs than every other author is the
      one `mostBlogs` names. */
  lemma MostBlogsFindsDominantAuthor(blogs: seq<BlogDoc>, author: string)
    requires exists i :: 0 <= i < |blogs| && blogs[i].author == author
    requires forall i :: 0 <= i < |blogs| && blogs[i].author != author ==>
               CountBy(blogs, blogs[i].author) < CountBy(blogs, author)
    ensures MostBlogs(blogs) == AuthorBlogs(author, CountBy(blogs, author))
  {
    MostBlogsIsMaximal(blogs);
    var i :| 0 <= i < |blogs| && blogs[i].author == author;
  }

  // ---------------------------------------------------------------------
  // mostLikes

  /** The `{author, likes}` objects `groupBy` followed by `map` produces, one
      per author, in author order. */
  function Groups(blogs: seq<BlogDoc>): (r: seq<AuthorLikes>)
    ensures |r| == |Authors(blogs)|
    ensures forall i :: 0 <= i < |r| ==> r[i] == AuthorLikes(Authors(blogs)[i], LikesBy(blogs, Authors(blogs)[i]))
  {
    var authors := Authors(blogs);
    seq(|authors|, i requires 0 <= i < |authors| => AuthorLikes(authors[i], LikesBy(blogs, authors[i])))
  }

  /** The `likes` of each group, in author order: the values `maxBy` compares.
      Stated directly rather than read off `Groups`, which keeps the proofs
      about `MostLikes` small; the contracts of the two agree entry by entry. */
  function Totals(blogs: seq<BlogDoc>): (r: seq<int>)
    ensures |r| == |Authors(blogs)|
    ensures forall i :: 0 <= i < |r| ==> r[i] == LikesBy(blogs, Authors(blogs)[i])
  {
    var authors := Authors(blogs);
    seq(|authors|, i requires 0 <= i < |authors| => LikesBy(blogs, authors[i]))
  }

  /** `mostLikes`: the group lodash's `maxBy(object => object.likes)` picks. */
  function MostLikes(blogs: seq<BlogDoc>): (r: AuthorLikes)
    requires |blogs| > 0
    ensures exists i :: 0 <= i < |blogs| && blogs[i].author == r.author
    ensures r.likes == LikesBy(blogs, r.author)
  {
    Groups(blogs)[Extrema.FirstMaxIndex(Totals(blogs))]
  }

  /** No author's blogs have more likes together than those of the author
      `mostLikes` names, and every author who appears earlier has strictly
      fewer. */
  lemma MostLikesIsMaximal(blogs: seq<BlogDoc>)
    requires |blogs| > 0
    ensures forall i :: 0 <= i < |blogs| ==> LikesBy(blogs, blogs[i].author) <= MostLikes(blogs).likes
    ensures exists k :: 0 <= k < |Authors(blogs)| && Authors(blogs)[k] == MostLikes(blogs).author
              && forall j :: 0 <= j < k ==> LikesBy(blogs, Authors(blogs)[j]) < MostLikes(blogs).likes
  {
    var authors := Authors(blogs);
    var totals := Totals(blogs);
    var k := Extrema.FirstMaxIndex(totals);
    var r := MostLikes(blogs);
    assert r == AuthorLikes(authors[k], totals[k]);
    forall i | 0 <= i < |blogs|
      ensures LikesBy(blogs, blogs[i].author) <= r.likes
    {
      var j :| 0 <= j < |authors| && authors[j] == blogs[i].author;
      assert totals[j] <= totals[k];
    }
    assert forall j :: 0 <= j < k ==> totals[j] < totals[k];
  }

  /** An author whose blogs together have strictly more likes than any other
      author's is the one `mostLikes` names. */
  lemma MostLikesFindsDominantAuthor(blogs: seq<BlogDoc>, author: string)
    requires exists i :: 0 <= i < |blogs| && blogs[i].author == author
    requires forall i :: 0 <= i < |blogs| && blogs[i].author != author ==>
               LikesBy(blogs, blogs[i].author) < LikesBy(blogs, author)
    ensures MostLikes(blogs) == AuthorLikes(author, LikesBy(blogs, author))
  {
    MostLikesIsMaximal(blogs);
    var i :| 0 <= i < |blogs| && blogs[i].author == author;
  }

  /** Sum of `LikesBy(blogs, a)` over the authors `as`. */
  function LikesOver(blogs: seq<BlogDoc>, authors: seq<string>): int
  {
    if |authors| == 0 then 0
    else LikesOver(blogs, authors[..|authors| - 1]) + LikesBy(blogs, authors[|authors| - 1])
  }

  /** Adding one blog at the end adds its likes to the per-author sums of
      exactly the one author who wrote it. */
  lemma {:induction false} LikesOverAppend(blogs: seq<BlogDoc>, b: BlogDoc, authors: seq<string>)
    requires NoDuplicates(authors)
    ensures LikesOver(blogs + [b], authors) ==
              LikesOver(blogs, authors) + (if b.author in authors then b.likes else 0)
    decreases |authors|
  {
    if |authors| > 0 {
      var prefix := authors[..|authors| - 1];
      var a := authors[|authors| - 1];
      LikesOverAppend(blogs, b, prefix);
      PostsByAppend(blogs, b, a);
      if a == b.author {
        SumLikesConcat(PostsBy(blogs, a), [b]);
        assert [b][..0] == [];
      } else {
        assert PostsBy(blogs + [b], a) == PostsBy(blogs, a);
      }
      assert b.author in authors <==> b.author in prefix || b.author == a;
      assert !(b.author in prefix && b.author == a);
    }
  }

  /** The per-author sums add up to the total likes. */
  lemma {:induction false} AuthorSumsAddUpToTotal(blogs: seq<BlogDoc>)
    ensures LikesOver(blogs, Authors(blogs)) == SumLikes(blogs)
    decreases |blogs|
  {
    if |blogs| > 0 {
      var prefix := blogs[..|blogs| - 1];
      var b := blogs[|blogs| - 1];
      assert blogs == prefix + [b];
      AuthorSumsAddUpToTotal(prefix);
      LikesOverAppend(prefix, b, Authors(prefix));
      if b.author !in Authors(prefix) {
        PostsByAbsent(prefix, b.author);
        PostsByAppend(prefix, b, b.author);
        var authors := Authors(blogs);
        assert authors == Authors(prefix) + [b.author];
        assert authors[..|authors| - 1] == Authors(prefix);
        SumLikesConcat(PostsBy(prefix, b.author), [b]);
        assert [b][..0] == [];
      }
    }
  }

  // ---------------------------------------------------------------------
  // a worked example: A wrote two blogs with 5 and 3 likes, B one with 10

  predicate SampleBlogs(x: BlogDoc, y: BlogDoc, z: BlogDoc)
  {
    x.author == "A" && x.likes == 5 && y.author == "A" && y.likes == 3 && z.author == "B" && z.likes == 10
  }

  lemma SampleBlogsGroups(x: BlogDoc, y: BlogDoc, z: BlogDoc)
    requires SampleBlogs(x, y, z)
    ensures PostsBy([x, y, z], "A") == [x, y]
    ensures PostsBy([x, y, z], "B") == [z]
  {
    assert [x, y, z] == [x, y] + [z] && [x, y] == [x] + [y] && [x] == [] + [x];
    PostsByAppend([], x, "A");
    PostsByAppend([x], y, "A");
    PostsByAppend([x, y], z, "A");
    PostsByAppend([], x, "B");
    PostsByAppend([x], y, "B");
    PostsByAppend([x, y], z, "B");
  }

  lemma SampleBlogsSums(x: BlogDoc, y: BlogDoc, z: BlogDoc)
    requires SampleBlogs(x, y, z)
    ensures SumLikes([x, y]) == 8 && SumLikes([z]) == 10 && SumLikes([x, y, z]) == 18
  {
    SumLikesCons(x, [y]);
    SumLikesCons(y, []);
    SumLikesCons(z, []);
    assert [x] + [y] == [x, y] && [y] + [] == [y] && [z] + [] == [z];
    assert [x, y, z] == [x, y] + [z];
    SumLikesConcat([x, y], [z]);
  }

  lemma SampleBlogsStats(x: BlogDoc, y: BlogDoc, z: BlogDoc)
    requires SampleBlogs(x, y, z)
    ensures CountBy([x, y, z], "A") == 2 && CountBy([x, y, z], "B") == 1
    ensures LikesBy([x, y, z], "A") == 8 && LikesBy([x, y, z], "B") == 10
  {
    SampleBlogsGroups(x, y, z);
    SampleBlogsSums(x, y, z);
  }

  /** A has the most blogs, B the most likes, 18 likes in all. */
  lemma ThreeBlogsTwoAuthors(x: BlogDoc, y: BlogDoc, z: BlogDoc)
    requires SampleBlogs(x, y, z)
    ensures SumLikes([x, y, z]) == 18
    ensures MostBlogs([x, y, z]) == AuthorBlogs("A", 2)
    ensures MostLikes([x, y, z]) == AuthorLikes("B", 10)
  {
    var bs := [x, y, z];
    SampleBlogsSums(x, y, z);
    SampleBlogsStats(x, y, z);
    assert bs[0].author == "A";
    assert forall i :: 0 <= i < |bs| && bs[i].author != "A" ==> bs[i].author == "B";
    MostBlogsFindsDominantAuthor(bs, "A");
    assert bs[2].author == "B";
    assert forall i :: 0 <= i < |bs| && bs[i].author != "B" ==> bs[i].author == "A";
    MostLikesFindsDominantAuthor(bs, "B");
  }
}
