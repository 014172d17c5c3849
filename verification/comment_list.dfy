/** The list transforms the comment section applies to its `comments` array
    once the resource confirms a request, the visible window over that array,
    and what those transforms keep and change. */
module CommentList {
  import opened Types

  /** Where a window of `n` cuts the list: JavaScript's `slice` clamps an end
      index past the length to the length. */
  function Cut(cs: seq<Comment>, n: nat): (k: nat)
    ensures k <= |cs|
    ensures k == n || (k == |cs| && |cs| < n)
  {
    if n <= |cs| then n else |cs|
  }

  /** The comments rendered for a window of `n`: `comments.slice(0, n)`. */
  function Visible(cs: seq<Comment>, n: nat): seq<Comment>
  {
    cs[..Cut(cs, n)]
  }

  /** True when some entry of `cs` carries `id`. */
  predicate HasId(cs: seq<Comment>, id: int)
  {
    exists i :: 0 <= i < |cs| && cs[i].id == id
  }

  /** No two entries of `cs` share an id. */
  predicate UniqueIds(cs: seq<Comment>)
  {
    forall i, j :: 0 <= i < j < |cs| ==> cs[i].id != cs[j].id
  }

  /** How many entries of `cs` carry `id`. */
  function CountId(cs: seq<Comment>, id: int): (r: nat)
    ensures r <= |cs|
    ensures r == 0 <==> !HasId(cs, id)
  {
    if cs == [] then 0
    else
      assert forall i :: 0 < i < |cs| ==> cs[i] == cs[1..][i - 1];
      (if cs[0].id == id then 1 else 0) + CountId(cs[1..], id)
  }

  // ---------------------------------------------------------------------
  // Create: the returned comment goes right after the visible window.
  // ---------------------------------------------------------------------

  /** `[...cs.slice(0, n), c, ...cs.slice(n, cs.length)]`. */
  function InsertAfterWindow(cs: seq<Comment>, n: nat, c: Comment): (r: seq<Comment>)
    ensures |r| == |cs| + 1
    ensures r[Cut(cs, n)] == c
    ensures r[..Cut(cs, n)] == cs[..Cut(cs, n)] && r[Cut(cs, n) + 1..] == cs[Cut(cs, n)..]
  {
    var k := Cut(cs, n);
    assert cs == cs[..k] + cs[k..];
    cs[..k] + [c] + cs[k..]
  }

  /** A create adds the returned comment and loses nothing. */
  lemma InsertAfterWindowPermutes(cs: seq<Comment>, n: nat, c: Comment)
    ensures multiset(InsertAfterWindow(cs, n, c)) == multiset(cs) + multiset{c}
  {
    var k := Cut(cs, n);
    assert cs == cs[..k] + cs[k..];
  }

  /** After a create the window has grown by one: what was visible stays
      visible in the same order, the new comment is shown right after it, and
      the part not yet revealed is exactly the part that was hidden before. */
  lemma InsertAfterWindowReveals(cs: seq<Comment>, n: nat, c: Comment)
    ensures Visible(InsertAfterWindow(cs, n, c), n + 1) == Visible(cs, n) + [c]
    ensures c in Visible(InsertAfterWindow(cs, n, c), n + 1)
    ensures var r := InsertAfterWindow(cs, n, c);
            r[Cut(r, n + 1)..] == cs[Cut(cs, n)..]
  {
  }

  /** Three of five comments shown; a created comment lands fourth and the
      window becomes four. */
  lemma InsertAfterWindowExample(c1: Comment, c2: Comment, c3: Comment, c4: Comment, c5: Comment, c6: Comment)
    ensures InsertAfterWindow([c1, c2, c3, c4, c5], 3, c6) == [c1, c2, c3, c6, c4, c5]
    ensures Visible(InsertAfterWindow([c1, c2, c3, c4, c5], 3, c6), 4) == [c1, c2, c3, c6]
  {
  }

  /** A create whose returned id is new keeps the ids unique. */
  lemma InsertAfterWindowKeepsUnique(cs: seq<Comment>, n: nat, c: Comment)
    requires UniqueIds(cs) && !HasId(cs, c.id)
    ensures UniqueIds(InsertAfterWindow(cs, n, c))
    ensures CountId(InsertAfterWindow(cs, n, c), c.id) == 1
  {
    var r := InsertAfterWindow(cs, n, c);
    var k := Cut(cs, n);
    forall i, j | 0 <= i < j < |r| ensures r[i].id != r[j].id {
      var i' := if i < k then i else if i == k then -1 else i - 1;
      var j' := if j < k then j else if j == k then -1 else j - 1;
      if i' < 0 {
        assert cs[j'].id == r[j].id;
      } else if j' < 0 {
        assert cs[i'].id == r[i].id;
      } else {
        assert r[i] == cs[i'] && r[j] == cs[j'];
      }
    }
    UniqueCountOne(r, k);
  }

  // ---------------------------------------------------------------------
  // Delete: `comments.filter((comment) => comment.id !== id)`.
  // ---------------------------------------------------------------------

  /** The entries of `cs` whose id differs from `id`, in their original order. */
  function WithoutId(cs: seq<Comment>, id: int): (r: seq<Comment>)
    ensures |r| <= |cs|
    ensures forall c :: c in r <==> c in cs && c.id != id
  {
    if cs == [] then []
    else
      (if cs[0].id == id then [] else [cs[0]]) + WithoutId(cs[1..], id)
  }

  /** A delete keeps every other entry as often as it occurred and drops every
      entry carrying the id. */
  lemma {:induction false} WithoutIdCounts(cs: seq<Comment>, id: int, c: Comment)
    ensures multiset(WithoutId(cs, id))[c] == if c.id == id then 0 else multiset(cs)[c]
  {
    if cs != [] {
      assert cs == [cs[0]] + cs[1..];
      WithoutIdCounts(cs[1..], id, c);
    }
  }

  /** Filtering distributes over concatenation: the survivors keep the order
      they had in the list. */
  lemma {:induction false} WithoutIdConcat(a: seq<Comment>, b: seq<Comment>, id: int)
    ensures WithoutId(a + b, id) == WithoutId(a, id) + WithoutId(b, id)
  {
    if a == [] {
      assert a + b == b;
    } else {
      assert (a + b)[1..] == a[1..] + b;
      WithoutIdConcat(a[1..], b, id);
    }
  }

  /** Removing an id nobody carries changes nothing. */
  lemma {:induction false} WithoutIdAbsent(cs: seq<Comment>, id: int)
    requires !HasId(cs, id)
    ensures WithoutId(cs, id) == cs
  {
    if cs != [] {
      assert cs[0].id != id;
      assert !HasId(cs[1..], id) by {
        forall i | 0 <= i < |cs[1..]| ensures cs[1..][i].id != id {
          assert cs[1..][i] == cs[i + 1];
        }
      }
      WithoutIdAbsent(cs[1..], id);
      assert cs == [cs[0]] + cs[1..];
    }
  }

  /** Deleting twice is deleting once. */
  lemma WithoutIdIdempotent(cs: seq<Comment>, id: int)
    ensures WithoutId(WithoutId(cs, id), id) == WithoutId(cs, id)
  {
    var r := WithoutId(cs, id);
    assert !HasId(r, id) by {
      forall i | 0 <= i < |r| ensures r[i].id != id {
        assert r[i] in r;
      }
    }
    WithoutIdAbsent(r, id);
  }

  /** Two deletes give the same list in either order. */
  lemma {:induction false} WithoutIdCommute(cs: seq<Comment>, a: int, b: int)
    ensures WithoutId(WithoutId(cs, a), b) == WithoutId(WithoutId(cs, b), a)
  {
    if cs != [] {
      var x := [cs[0]];
      assert cs == x + cs[1..];
      WithoutIdConcat(x, cs[1..], a);
      WithoutIdConcat(x, cs[1..], b);
      WithoutIdConcat(WithoutId(x, a), WithoutId(cs[1..], a), b);
      WithoutIdConcat(WithoutId(x, b), WithoutId(cs[1..], b), a);
      WithoutIdCommute(cs[1..], a, b);
    }
  }

  /** A delete shortens the list by the number of entries carrying the id. */
  lemma {:induction false} WithoutIdLength(cs: seq<Comment>, id: int)
    ensures |WithoutId(cs, id)| == |cs| - CountId(cs, id)
  {
    if cs != [] {
      WithoutIdLength(cs[1..], id);
    }
  }

  /** With unique ids, an id that is present is carried by exactly one entry. */
  lemma {:induction false} UniqueCountOne(cs: seq<Comment>, i: nat)
    requires UniqueIds(cs) && i < |cs|
    ensures CountId(cs, cs[i].id) == 1
  {
    var t := cs[1..];
    assert UniqueIds(t) by {
      forall p, q | 0 <= p < q < |t| ensures t[p].id != t[q].id {
        assert t[p] == cs[p + 1] && t[q] == cs[q + 1];
      }
    }
    if i == 0 {
      assert !HasId(t, cs[0].id) by {
        forall p | 0 <= p < |t| ensures t[p].id != cs[0].id {
          assert t[p] == cs[p + 1];
        }
      }
    } else {
      assert t[i - 1] == cs[i];
      UniqueCountOne(t, i - 1);
    }
  }

  /** Prepending an entry whose id is new keeps the ids unique. */
  lemma UniqueCons(x: Comment, t: seq<Comment>)
    requires UniqueIds(t) && !HasId(t, x.id)
    ensures UniqueIds([x] + t)
  {
  }

  /** A delete keeps the ids unique, and deleting a present id of a list with
      unique ids removes exactly one entry. */
  lemma {:induction false} WithoutIdKeepsUnique(cs: seq<Comment>, id: int)
    requires UniqueIds(cs)
    ensures UniqueIds(WithoutId(cs, id))
    ensures HasId(cs, id) ==> |WithoutId(cs, id)| == |cs| - 1
  {
    if cs != [] {
      var t := cs[1..];
      assert UniqueIds(t) by {
        forall p, q | 0 <= p < q < |t| ensures t[p].id != t[q].id {
          assert t[p] == cs[p + 1] && t[q] == cs[q + 1];
        }
      }
      WithoutIdKeepsUnique(t, id);
      var rt := WithoutId(t, id);
      if cs[0].id != id {
        assert !HasId(rt, cs[0].id) by {
          forall p | 0 <= p < |rt| ensures rt[p].id != cs[0].id {
            assert rt[p] in rt;
            var q :| 0 <= q < |t| && t[q] == rt[p];
            assert t[q] == cs[q + 1];
          }
        }
        UniqueCons(cs[0], rt);
      }
    }
    if HasId(cs, id) {
      var i :| 0 <= i < |cs| && cs[i].id == id;
      UniqueCountOne(cs, i);
      WithoutIdLength(cs, id);
    }
  }

  /** Deleting the comment a create has just inserted gives back the list as
      it was before the create. */
  lemma DeleteUndoesInsert(cs: seq<Comment>, n: nat, c: Comment)
    requires !HasId(cs, c.id)
    ensures WithoutId(InsertAfterWindow(cs, n, c), c.id) == cs
  {
    var k := Cut(cs, n);
    var a, b := cs[..k], cs[k..];
    assert !HasId(a, c.id) by {
      forall i | 0 <= i < |a| ensures a[i].id != c.id { assert a[i] == cs[i]; }
    }
    assert !HasId(b, c.id) by {
      forall i | 0 <= i < |b| ensures b[i].id != c.id { assert b[i] == cs[k + i]; }
    }
    WithoutIdAround(a, c, b);
    assert cs == a + b;
  }

  /** Removing the only carrier of an id from between two parts rejoins them. */
  lemma WithoutIdAround(a: seq<Comment>, c: Comment, b: seq<Comment>)
    requires !HasId(a, c.id) && !HasId(b, c.id)
    ensures WithoutId(a + [c] + b, c.id) == a + b
  {
    var id := c.id;
    assert WithoutId([c], id) == [] by {
      assert [c][1..] == [];
    }
    WithoutIdConcat(a, [c], id);
    WithoutIdAbsent(a, id);
    assert WithoutId(a + [c], id) == a;
    WithoutIdConcat(a + [c], b, id);
    WithoutIdAbsent(b, id);
  }

  // ---------------------------------------------------------------------
  // Update: `comments.filter((c) => c.id !== id).concat(updated)`.
  // ---------------------------------------------------------------------

  /** Every entry carrying `id` is dropped and the returned record goes last. */
  function ReplaceById(cs: seq<Comment>, id: int, u: Comment): (r: seq<Comment>)
    ensures |r| >= 1 && r[|r| - 1] == u
    ensures forall i :: 0 <= i < |r| - 1 ==> r[i] in cs && r[i].id != id
    ensures forall c :: c in cs && c.id != id ==> c in r
  {
    var kept := WithoutId(cs, id);
    assert forall i :: 0 <= i < |kept| ==> (kept + [u])[i] == kept[i];
    kept + [u]
  }

  /** The entries other than the returned record are those a delete of the
      same id would keep, in the same order. */
  lemma ReplaceByIdKeepsOthers(cs: seq<Comment>, id: int, u: Comment)
    ensures var r := ReplaceById(cs, id, u); r[..|r| - 1] == WithoutId(cs, id)
  {
  }

  /** With unique ids and the id present, an update keeps the length; an
      update of an id that is absent appends the returned record. */
  lemma ReplaceByIdLength(cs: seq<Comment>, id: int, u: Comment)
    ensures UniqueIds(cs) && HasId(cs, id) ==> |ReplaceById(cs, id, u)| == |cs|
    ensures !HasId(cs, id) ==> ReplaceById(cs, id, u) == cs + [u]
  {
    if UniqueIds(cs) {
      WithoutIdKeepsUnique(cs, id);
    }
    if !HasId(cs, id) {
      WithoutIdAbsent(cs, id);
    }
  }

  /** An update answered with a record that keeps its id leaves the ids unique
      and exactly one entry with that id. */
  lemma ReplaceByIdKeepsUnique(cs: seq<Comment>, u: Comment)
    requires UniqueIds(cs)
    ensures UniqueIds(ReplaceById(cs, u.id, u))
    ensures CountId(ReplaceById(cs, u.id, u), u.id) == 1
  {
    var kept := WithoutId(cs, u.id);
    WithoutIdKeepsUnique(cs, u.id);
    var r := kept + [u];
    forall i, j | 0 <= i < j < |r| ensures r[i].id != r[j].id {
      if j == |r| - 1 {
        assert r[i] == kept[i] && kept[i] in kept;
      } else {
        assert r[i] == kept[i] && r[j] == kept[j];
      }
    }
    UniqueCountOne(r, |r| - 1);
  }

  /** Of two updates of the same id, the later answer is the one that stays. */
  lemma ReplaceByIdTwice(cs: seq<Comment>, u: Comment, v: Comment)
    ensures ReplaceById(ReplaceById(cs, u.id, u), u.id, v) == ReplaceById(cs, u.id, v)
  {
    WithoutIdConcat(WithoutId(cs, u.id), [u], u.id);
    WithoutIdIdempotent(cs, u.id);
  }

  // ---------------------------------------------------------------------
  // The request body of an update: `{...comments.find(..), name, body}`.
  // ---------------------------------------------------------------------

  /** `comments.find((c) => c.id === id)`: the first entry carrying `id`. */
  function FindById(cs: seq<Comment>, id: int): (r: Option<Comment>)
    ensures r.Some? ==> r.value in cs && r.value.id == id
    ensures r.None? <==> !HasId(cs, id)
  {
    if cs == [] then None
    else if cs[0].id == id then Some(cs[0])
    else
      assert forall i :: 0 < i < |cs| ==> cs[i] == cs[1..][i - 1];
      FindById(cs[1..], id)
  }

  /** `find` returns the entry at the first index carrying the id. */
  lemma {:induction false} FindByIdFirst(cs: seq<Comment>, i: nat)
    requires i < |cs|
    requires forall j :: 0 <= j < i ==> cs[j].id != cs[i].id
    ensures FindById(cs, cs[i].id) == Some(cs[i])
  {
    if i > 0 {
      assert cs[1..][i - 1] == cs[i];
      FindByIdFirst(cs[1..], i - 1);
    }
  }

  /** Reads a payload back as a comment when it carries every field. */
  function PayloadComment(p: CommentPayload): Option<Comment>
  {
    if p.postId.Some? && p.id.Some? && p.email.Some? then
      Some(Comment(p.postId.value, p.id.value, p.name, p.email.value, p.body))
    else
      None
  }

  /** The update body: the existing record with `name` and `body` overwritten.
      When no record was found the spread contributes nothing. */
  function UpdatePayload(existing: Option<Comment>, name: string, body: string): (p: CommentPayload)
    ensures p.name == name && p.body == body
    ensures existing.Some? ==> PayloadComment(p) == Some(existing.value.(name := name, body := body))
    ensures existing.None? ==> p.postId.None? && p.id.None? && p.email.None?
  {
    match existing
    case Some(c) => CommentPayload(Some(c.postId), Some(c.id), name, Some(c.email), body)
    case None => CommentPayload(None, None, name, None, body)
  }
}
