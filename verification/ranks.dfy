/** Forum ranks: a fixed table of thresholds on the number of posts, and
    the lookup of the rank a post count earns. */
module Ranks {

  /** A rank: its name, the fewest posts that earn it, and the text and
      badge colour classes it is shown with. */
  datatype Rank = Rank(name: string, minPosts: int, color: string, bgColor: string)

  /** The ranks, lowest threshold first. */
  const Table: seq<Rank> := [
    Rank("Newbie", 0, "text-gray-400", "bg-gray-500/20"),
    Rank("Regular", 10, "text-green-400", "bg-green-500/20"),
    Rank("Veteran", 50, "text-purple-400", "bg-purple-500/20"),
    Rank("Elite", 100, "text-orange-400", "bg-orange-500/20"),
    Rank("Legend", 200, "text-red-400", "bg-red-500/20")
  ]

  /** Thresholds strictly increase along `rs`. */
  predicate Ascending(rs: seq<Rank>) {
    forall i, j :: 0 <= i < j < |rs| ==> rs[i].minPosts < rs[j].minPosts
  }

  /** The table is non-empty, strictly ascending, and its first rank needs
      no posts at all. */
  lemma TableShape()
    ensures |Table| == 5
    ensures Ascending(Table)
    ensures Table[0].minPosts == 0
  {
  }

  /** How many ranks of `rs` a post count `n` qualifies for. */
  function Qualified(n: int, rs: seq<Rank>): (c: nat)
    ensures c <= |rs|
  {
    if |rs| == 0 then 0
    else (if rs[0].minPosts <= n then 1 else 0) + Qualified(n, rs[1..])
  }

  /** On an ascending table the ranks a count qualifies for are exactly the
      first `Qualified(n, rs)` ones. */
  lemma {:induction false} QualifiedIsPrefix(n: int, rs: seq<Rank>)
    requires Ascending(rs)
    ensures forall k :: 0 <= k < |rs| ==> (rs[k].minPosts <= n <==> k < Qualified(n, rs))
    decreases |rs|
  {
    if |rs| > 0 {
      var tail := rs[1..];
      assert Ascending(tail);
      QualifiedIsPrefix(n, tail);
      if rs[0].minPosts <= n {
        forall k | 1 <= k < |rs|
          ensures rs[k].minPosts <= n <==> k < Qualified(n, rs)
        {
          assert rs[k] == tail[k - 1];
        }
      } else {
        forall k | 1 <= k < |rs|
          ensures rs[k].minPosts > n
        {
          assert rs[0].minPosts < rs[k].minPosts;
        }
      }
    }
  }

  /** More posts qualify for at least as many ranks. */
  lemma {:induction false} QualifiedMonotone(a: int, b: int, rs: seq<Rank>)
    requires a <= b
    ensures Qualified(a, rs) <= Qualified(b, rs)
    decreases |rs|
  {
    if |rs| > 0 {
      QualifiedMonotone(a, b, rs[1..]);
    }
  }

  /** The position in the table of the rank `n` posts earn, counted from
      the ranks it qualifies for: the last of them, or the first rank when
      it qualifies for none. */
  function RankIndex(n: int): (i: nat)
    ensures i < |Table|
  {
    var c := Qualified(n, Table);
    if c == 0 then 0 else c - 1
  }

  /** `RankIndex(n)` is the last rank whose threshold `n` reaches, and the
      first rank when `n` reaches none, that is, when `n` is negative. */
  lemma {:induction false} RankIndexIsLastQualifying(n: int)
    ensures n >= 0 <==> Table[RankIndex(n)].minPosts <= n
    ensures forall k :: RankIndex(n) < k < |Table| ==> Table[k].minPosts > n
    ensures n < 0 ==> RankIndex(n) == 0
  {
    TableShape();
    QualifiedIsPrefix(n, Table);
  }

  /** The rank of a post count: the table is searched from the highest
      threshold down and the first rank the count reaches is returned;
      a count below every threshold gets the first rank. */
  method GetRankByPostCount(n: int) returns (r: Rank)
    ensures r in Table
    ensures n >= 0 ==> r.minPosts <= n
    ensures forall k :: 0 <= k < |Table| && Table[k].minPosts > r.minPosts ==> Table[k].minPosts > n
    ensures n < 0 ==> r == Table[0]
    ensures r == Table[RankIndex(n)]
  {
    TableShape();
    RankIndexIsLastQualifying(n);
    var i := |Table| - 1;
    while i >= 0
      invariant -1 <= i < |Table|
      invariant forall k :: i < k < |Table| ==> Table[k].minPosts > n
    {
      if n >= Table[i].minPosts {
        assert i == RankIndex(n);
        return Table[i];
      }
      i := i - 1;
    }
    return Table[0];
  }

  /** Ranks never go down as the post count grows. */
  lemma {:induction false} RankIsMonotone(a: int, b: int)
    requires a <= b
    ensures RankIndex(a) <= RankIndex(b)
    ensures Table[RankIndex(a)].minPosts <= Table[RankIndex(b)].minPosts
  {
    TableShape();
    QualifiedMonotone(a, b, Table);
  }

  /** The post counts each rank covers. */
  lemma {:induction false} RankBands(n: int)
    ensures n <= 9 ==> Table[RankIndex(n)].name == "Newbie"
    ensures 10 <= n <= 49 ==> Table[RankIndex(n)].name == "Regular"
    ensures 50 <= n <= 99 ==> Table[RankIndex(n)].name == "Veteran"
    ensures 100 <= n <= 199 ==> Table[RankIndex(n)].name == "Elite"
    ensures 200 <= n ==> Table[RankIndex(n)].name == "Legend"
  {
    RankIndexIsLastQualifying(n);
    var i := RankIndex(n);
    var names := ["Newbie", "Regular", "Veteran", "Elite", "Legend"];
    var mins := [0, 10, 50, 100, 200];
    assert forall k :: 0 <= k < 5 ==> Table[k].name == names[k] && Table[k].minPosts == mins[k];
    assert i < 4 ==> Table[i + 1].minPosts > n;
    assert n >= 0 ==> Table[i].minPosts <= n;
  }
}
