/** The blog-post service: a table of posts keyed by id, with create, update,
    remove, read-by-id (which counts a view) and a listing by popularity.
    The storage layer is a map from id to row plus the next id it will hand out. */
module Posts {
  import opened Wrappers

  /** One block of a post's structured body: a type tag such as "paragraph"
      and the block's optional `data.text` (None when data or text is missing). */
  datatype Block = Block(kind: string, text: Option<string>)

  /** A stored row. `owner` is the id of the user the row belongs to. */
  datatype Post = Post(
    id: int,
    title: string,
    body: seq<Block>,
    tags: string,
    description: string,
    views: nat,
    owner: int)

  /** The payload of a create or update request. */
  datatype PostDto = PostDto(title: string, body: seq<Block>, tags: string)

  /** The two failures the service raises. */
  datatype Error = NotFound | Forbidden

  // ---------------------------------------------------------------------------
  // Description derivation
  // ---------------------------------------------------------------------------

  predicate IsParagraph(b: Block) {
    b.kind == "paragraph"
  }

  /** Block `i` is a paragraph and no block before it is one. */
  ghost predicate IsFirstParagraph(body: seq<Block>, i: int) {
    && 0 <= i < |body|
    && IsParagraph(body[i])
    && forall j :: 0 <= j < i ==> !IsParagraph(body[j])
  }

  /** The position of the first paragraph block, as `body.find(...)` locates it. */
  function FirstParagraph(body: seq<Block>): (r: Option<nat>)
    ensures r.Some? ==> IsFirstParagraph(body, r.value)
    ensures r.None? ==> forall j :: 0 <= j < |body| ==> !IsParagraph(body[j])
  {
    if |body| == 0 then None
    else if IsParagraph(body[0]) then Some(0)
    else
      match FirstParagraph(body[1..])
      case None => None
      case Some(i) => Some(i + 1)
  }

  /** JavaScript's `text || ''` on an optional string: a missing or empty text
      both give the empty string. */
  function OrEmpty(text: Option<string>): string {
    if text.Some? && text.value != "" then text.value else ""
  }

  /** The description stored with a post: the text of the first paragraph
      block, or "" when there is no paragraph or its text is missing or empty. */
  function Description(body: seq<Block>): (d: string)
    ensures (forall i :: 0 <= i < |body| ==> !IsParagraph(body[i])) ==> d == ""
    ensures forall i :: IsFirstParagraph(body, i) ==> d == body[i].text.GetOr("")
    ensures d == "" || exists i :: IsFirstParagraph(body, i) && body[i].text == Some(d)
  {
    match FirstParagraph(body)
    case None => ""
    case Some(i) => OrEmpty(body[i].text)
  }

  /** Only one paragraph is ever consulted: two bodies that agree up to and
      including the first paragraph have the same description, whatever follows. */
  lemma {:induction false} DescriptionIgnoresLaterBlocks(body: seq<Block>, other: seq<Block>, i: int)
    requires IsFirstParagraph(body, i)
    requires i < |other| && other[..i + 1] == body[..i + 1]
    ensures Description(other) == Description(body)
  {
    forall j | 0 <= j <= i ensures other[j] == body[j] {
      assert other[j] == other[..i + 1][j];
    }
    assert IsFirstParagraph(other, i);
  }

  /** Blocks that are not paragraphs in front of the body do not change the
      description. */
  lemma {:induction false} DescriptionSkipsLeadingBlocks(prefix: seq<Block>, body: seq<Block>)
    requires forall j :: 0 <= j < |prefix| ==> !IsParagraph(prefix[j])
    ensures Description(prefix + body) == Description(body)
  {
    var whole := prefix + body;
    match FirstParagraph(body)
    case None =>
      forall j | 0 <= j < |whole| ensures !IsParagraph(whole[j]) {
        if j >= |prefix| { assert whole[j] == body[j - |prefix|]; }
      }
    case Some(i) =>
      assert whole[|prefix| + i] == body[i];
      forall j | 0 <= j < |prefix| + i ensures !IsParagraph(whole[j]) {
        if j >= |prefix| { assert whole[j] == body[j - |prefix|]; }
      }
      assert IsFirstParagraph(whole, |prefix| + i);
  }

  /** Blocks appended after a body that already has a paragraph, paragraphs
      among them, never change its description. */
  lemma {:induction false} DescriptionIgnoresAppended(body: seq<Block>, tail: seq<Block>, i: int)
    requires IsFirstParagraph(body, i)
    ensures Description(body + tail) == Description(body)
  {
    assert (body + tail)[..i + 1] == body[..i + 1];
    DescriptionIgnoresLaterBlocks(body, body + tail, i);
  }

  // ---------------------------------------------------------------------------
  // Ordering by views
  // ---------------------------------------------------------------------------

  /** Views never increase along the sequence. */
  ghost predicate SortedByViews(s: seq<Post>) {
    forall i, j :: 0 <= i < j < |s| ==> s[i].views >= s[j].views
  }

  /** Insert `r` into a sequence already ordered by descending views, after
      every row with at least as many views. */
  method InsertByViews(s: seq<Post>, r: Post) returns (t: seq<Post>, p: nat)
    requires SortedByViews(s)
    ensures p <= |s| && t == s[..p] + [r] + s[p..]
    ensures forall j :: 0 <= j < p ==> s[j].views >= r.views
    ensures p < |s| ==> s[p].views < r.views
    ensures SortedByViews(t)
  {
    p := 0;
    while p < |s| && s[p].views >= r.views
      invariant p <= |s|
      invariant forall j :: 0 <= j < p ==> s[j].views >= r.views
    {
      p := p + 1;
    }
    t := s[..p] + [r] + s[p..];
    forall i, j | 0 <= i < j < |t| ensures t[i].views >= t[j].views {
      if i < p && j < p {
        assert t[i] == s[i] && t[j] == s[j];
      } else if i < p && j == p {
        assert t[i] == s[i];
      } else if i < p {
        assert t[i] == s[i] && t[j] == s[j - 1];
      } else if i == p {
        assert t[j] == s[j - 1] && s[p].views < r.views;
      } else {
        assert t[i] == s[i - 1] && t[j] == s[j - 1];
      }
    }
  }

  /** `posts` lists the rows of `rows` whose ids are in `done`, each once,
      most viewed first. */
  ghost predicate Lists(posts: seq<Post>, rows: map<int, Post>, done: set<int>) {
    && SortedByViews(posts)
    && (forall i :: 0 <= i < |posts| ==>
          posts[i].id in done && posts[i].id in rows && rows[posts[i].id] == posts[i])
    && (forall i, j :: 0 <= i < j < |posts| ==> posts[i].id != posts[j].id)
    && (forall k :: k in done ==> exists i :: 0 <= i < |posts| && posts[i].id == k)
  }

  /** Where each element of `before[..p] + [r] + before[p..]` comes from. */
  lemma InsertedAt(before: seq<Post>, posts: seq<Post>, p: nat, r: Post)
    requires p <= |before| && posts == before[..p] + [r] + before[p..]
    ensures |posts| == |before| + 1 && posts[p] == r
    ensures forall i :: 0 <= i < p ==> posts[i] == before[i]
    ensures forall i :: p < i < |posts| ==> posts[i] == before[i - 1]
  {
  }

  /** Inserting one more row, stored under its own id, into a listing in
      view order extends the listing by that id. */
  lemma ListsInsert(before: seq<Post>, posts: seq<Post>, p: nat, rows: map<int, Post>,
                    done: set<int>, key: int)
    requires Lists(before, rows, done)
    requires key in rows && rows[key].id == key && key !in done
    requires p <= |before| && posts == before[..p] + [rows[key]] + before[p..]
    requires SortedByViews(posts)
    ensures Lists(posts, rows, done + {key})
  {
    InsertedAt(before, posts, p, rows[key]);
    forall i | 0 <= i < |posts|
      ensures posts[i].id in done + {key} && posts[i].id in rows && rows[posts[i].id] == posts[i]
    {
      if i > p { assert posts[i] == before[i - 1]; }
    }
    forall i, j | 0 <= i < j < |posts| ensures posts[i].id != posts[j].id {
      var i' := if i <= p then i else i - 1;
      var j' := if j <= p then j else j - 1;
      if i != p && j != p {
        assert posts[i] == before[i'] && posts[j] == before[j'];
      } else if i == p {
        assert posts[j] == before[j'];
      } else {
        assert posts[i] == before[i'];
      }
    }
    forall other | other in done + {key}
      ensures exists i :: 0 <= i < |posts| && posts[i].id == other
    {
      if other == key {
        assert posts[p].id == key;
      } else {
        var i :| 0 <= i < |before| && before[i].id == other;
        if i < p {
          assert posts[i].id == other;
        } else {
          assert posts[i + 1].id == other;
        }
      }
    }
  }

  // ---------------------------------------------------------------------------
  // The service
  // ---------------------------------------------------------------------------

  /** Every row is stored under its own id, and every id is below the next id
      the table will hand out. */
  ghost predicate WellKeyed(rows: map<int, Post>, nextId: int) {
    forall k :: k in rows ==> k < nextId && rows[k].id == k
  }

  class PostService {
    /** The repository's table: id to row. */
    var table: map<int, Post>
    /** The id the next saved row receives. */
    var nextId: int

    ghost predicate Valid()
      reads this
    {
      WellKeyed(table, nextId)
    }

    /** The service over an existing repository. */
    constructor (rows: map<int, Post>, next: int)
      requires WellKeyed(rows, next)
      ensures Valid()
      ensures table == rows && nextId == next
    {
      table := rows;
      nextId := next;
    }

    /** Saves a new row owned by `userId` under a fresh id, with the derived
        description and no views yet, and returns it. */
    method Create(dto: PostDto, userId: int) returns (saved: Post)
      requires Valid()
      modifies this
      ensures Valid()
      ensures saved.id == old(nextId) && saved.id !in old(table) && nextId > saved.id
      ensures saved.title == dto.title && saved.body == dto.body && saved.tags == dto.tags
      ensures saved.owner == userId && saved.description == Description(dto.body) && saved.views == 0
      ensures table == old(table)[saved.id := saved]
    {
      saved := Post(nextId, dto.title, dto.body, dto.tags, Description(dto.body), 0, userId);
      table := table[nextId := saved];
      nextId := nextId + 1;
    }

    /** Counts one view of row `id`, then reads it back; an absent id changes
        nothing and yields no row. */
    method FindOne(id: int) returns (found: Option<Post>)
      requires Valid()
      modifies this
      ensures Valid() && nextId == old(nextId)
      ensures id !in old(table) ==> found == None && table == old(table)
      ensures id in old(table) ==>
        && table == old(table)[id := old(table)[id].(views := old(table)[id].views + 1)]
        && found == Some(table[id])
    {
      if id in table {
        var row := table[id];
        table := table[id := row.(views := row.views + 1)];
      }
      if id in table {
        found := Some(table[id]);
      } else {
        found := None;
      }
    }

    /** Replaces title, body, tags, owner and description of row `id`, whoever
        owned it before; NotFound when there is no such row. */
    method Update(id: int, dto: PostDto, userId: int) returns (result: Outcome<Error>)
      requires Valid()
      modifies this
      ensures Valid() && nextId == old(nextId)
      ensures id !in old(table) ==> result == Fail(NotFound) && table == old(table)
      ensures id in old(table) ==>
        && result == Pass
        && table == old(table)[id := old(table)[id].(
             title := dto.title, body := dto.body, tags := dto.tags,
             owner := userId, description := Description(dto.body))]
    {
      if id !in table {
        return Fail(NotFound);
      }
      var row := table[id];
      table := table[id := row.(title := dto.title, body := dto.body, tags := dto.tags,
                                owner := userId, description := Description(dto.body))];
      result := Pass;
    }

    /** Deletes row `id` when `userId` owns it; NotFound when there is no such
        row, checked first, and Forbidden when someone else owns it. */
    method Remove(id: int, userId: int) returns (result: Outcome<Error>)
      requires Valid()
      modifies this
      ensures Valid() && nextId == old(nextId)
      ensures id !in old(table) ==> result == Fail(NotFound) && table == old(table)
      ensures id in old(table) && old(table)[id].owner != userId ==>
        result == Fail(Forbidden) && table == old(table)
      ensures id in old(table) && old(table)[id].owner == userId ==>
        result == Pass && table == old(table) - {id}
    {
      if id !in table {
        return Fail(NotFound);
      }
      if table[id].owner != userId {
        return Fail(Forbidden);
      }
      table := table - {id};
      result := Pass;
    }

    /** Every row exactly once, most viewed first, and the number of rows. */
    method GetPopularPosts() returns (posts: seq<Post>, total: nat)
      requires Valid()
      ensures total == |table| == |posts|
      ensures SortedByViews(posts)
      ensures forall i :: 0 <= i < |posts| ==> posts[i].id in table && table[posts[i].id] == posts[i]
      ensures forall i, j :: 0 <= i < j < |posts| ==> posts[i].id != posts[j].id
      ensures forall k :: k in table ==> exists i :: 0 <= i < |posts| && posts[i].id == k
    {
      var rows := table;
      var remaining := rows.Keys;
      posts := [];
      while remaining != {}
        invariant remaining <= rows.Keys
        invariant |posts| == |rows.Keys - remaining|
        invariant Lists(posts, rows, rows.Keys - remaining)
        decreases remaining
      {
        // A non-empty set has a member.
        if forall k :: k !in remaining { assert false; }
        var key :| key in remaining;
        var before := posts;
        var p;
        posts, p := InsertByViews(posts, rows[key]);
        ListsInsert(before, posts, p, rows, rows.Keys - remaining, key);
        assert rows.Keys - (remaining - {key}) == (rows.Keys - remaining) + {key};
        remaining := remaining - {key};
      }
      assert rows.Keys - remaining == rows.Keys;
      total := |rows|;
    }
  }

  /** What a caller can rely on: a post its author creates is refused to any
      other user, is then removed by its author, and removing it restores the
      table. */
  method CreateThenRemove(s: PostService, dto: PostDto, author: int, other: int)
      returns (refused: Outcome<Error>, removed: Outcome<Error>)
    requires s.Valid() && author != other
    modifies s
    ensures refused == Fail(Forbidden) && removed == Pass
    ensures s.Valid() && s.table == old(s.table)
  {
    var saved := s.Create(dto, author);
    refused := s.Remove(saved.id, other);
    removed := s.Remove(saved.id, author);
    assert s.table == old(s.table);
  }
}
