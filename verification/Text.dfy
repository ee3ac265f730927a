/**
  Byte strings and the small vocabulary shared by every stage.

  A C++ std::string is modelled as a Dafny string whose characters stand for bytes: the
  byte b is the character with code b.  No statement of the project needs the bound 255,
  so every theorem holds in particular for all byte strings.
 */
module Text {

  datatype Option<+T> = None | Some(value: T)

  /** What one call across a port does: it returns a value or lets an exception escape. */
  datatype Reply<+T> = Returned(value: T) | Threw

  /** A nullable pointer to a vector. */
  datatype Nullable<+T> = Null | Listed(items: seq<T>)

  predicate IsDigit(c: char) {
    '0' <= c <= '9'
  }

  function LowerByte(c: char): char {
    if 'A' <= c <= 'Z' then c - 'A' + 'a' else c
  }

  function Lower(s: string): (r: string)
    ensures |r| == |s|
  {
    seq(|s|, i requires 0 <= i < |s| => LowerByte(s[i]))
  }

  /** ASCII-only lowering, performed byte by byte as the source does. */
  method AsciiLower(s: string) returns (r: string)
    ensures r == Lower(s)
    ensures |r| == |s| && forall i :: 0 <= i < |s| ==>
      r[i] as int == if 65 <= s[i] as int <= 90 then s[i] as int + 32 else s[i] as int
  {
    r := s;
    for i := 0 to |s|
      invariant |r| == |s|
      invariant forall k :: 0 <= k < i ==> r[k] == LowerByte(s[k])
      invariant forall k :: i <= k < |s| ==> r[k] == s[k]
    {
      if 'A' <= r[i] <= 'Z' {
        r := r[i := r[i] - 'A' + 'a'];
      }
    }
  }

  /** Position of the first c, or |s| when there is none. */
  function Find(s: string, c: char): (r: nat)
    ensures r <= |s|
    ensures c !in s[..r]
    ensures r < |s| ==> s[r] == c
  {
    if s == [] then 0
    else if s[0] == c then 0
    else
      var r := 1 + Find(s[1..], c);
      assert s[..r] == [s[0]] + s[1..][..r - 1];
      r
  }

  /** Position of the last c, or -1 when there is none. */
  function RFind(s: string, c: char): (r: int)
    ensures -1 <= r < |s|
    ensures forall i :: r < i < |s| ==> s[i] != c
    ensures r >= 0 ==> s[r] == c
  {
    if s == [] then -1
    else if s[|s| - 1] == c then |s| - 1
    else RFind(s[..|s| - 1], c)
  }

  /** The first c is where a c-free prefix ends. */
  lemma FindAt(s: string, c: char, k: nat)
    requires k <= |s|
    requires c !in s[..k]
    requires k < |s| ==> s[k] == c
    ensures Find(s, c) == k
  {
    var r := Find(s, c);
    assert forall i :: 0 <= i < k ==> s[i] == s[..k][i];
    assert forall i :: 0 <= i < r ==> s[i] == s[..r][i];
  }

  /** Positions of c decide where the last one is. */
  lemma {:induction false} RFindByPositions(s: string, t: string, c: char)
    requires |s| == |t|
    requires forall i :: 0 <= i < |s| ==> (s[i] == c <==> t[i] == c)
    ensures RFind(s, c) == RFind(t, c)
  {
    if s != [] && s[|s| - 1] != c {
      RFindByPositions(s[..|s| - 1], t[..|s| - 1], c);
    }
  }

  /** Lowering moves no dot and makes none. */
  lemma LowerKeepsDots(s: string)
    ensures '.' in Lower(s) <==> '.' in s
    ensures Find(Lower(s), '.') == Find(s, '.')
  {
    var k := Find(s, '.');
    forall i | 0 <= i < |s| ensures Lower(s)[i] == '.' <==> s[i] == '.' {}
    assert forall i :: 0 <= i < k ==> s[..k][i] == s[i];
    assert forall i :: 0 <= i < k ==> Lower(s)[..k][i] == Lower(s)[i];
    FindAt(Lower(s), '.', k);
    if '.' in s {
      var i :| 0 <= i < |s| && s[i] == '.';
      assert Lower(s)[i] == '.';
    }
  }

  // ---- Subsequences

  /** at lists, in order, exactly the positions where pick finds something, and r what it finds there. */
  ghost predicate PicksAt<T, U>(s: seq<T>, pick: T -> Option<U>, r: seq<U>, at: seq<nat>) {
    && |at| == |r|
    && (forall k :: 0 <= k < |at| ==> at[k] < |s| && pick(s[at[k]]) == Some(r[k]))
    && (forall j, k :: 0 <= j < k < |at| ==> at[j] < at[k])
    && (forall i :: 0 <= i < |s| && pick(s[i]).Some? ==> i in at)
  }

  /** r is what pick finds in s, element by element, in order. */
  ghost predicate Picks<T, U>(s: seq<T>, pick: T -> Option<U>, r: seq<U>) {
    exists at :: PicksAt(s, pick, r, at)
  }

  lemma PicksNothing<T, U>(pick: T -> Option<U>)
    ensures Picks([], pick, [])
  {
    assert PicksAt([], pick, [], []);
  }

  lemma PicksOneMore<T, U>(s: seq<T>, pick: T -> Option<U>, r: seq<U>, at: seq<nat>, x: T)
    requires PicksAt(s, pick, r, at) && pick(x).Some?
    ensures PicksAt(s + [x], pick, r + [pick(x).value], at + [|s|])
  {
    var s', at' := s + [x], at + [|s|];
    forall k | 0 <= k < |at| ensures s'[at'[k]] == s[at[k]] {}
    forall i | 0 <= i < |s'| && pick(s'[i]).Some? ensures i in at' {
      if i < |s| {
        assert s'[i] == s[i];
      } else {
        assert at'[|at|] == i;
      }
    }
  }

  lemma PicksSnoc<T, U>(s: seq<T>, pick: T -> Option<U>, r: seq<U>, x: T)
    requires Picks(s, pick, r)
    ensures Picks(s + [x], pick, r + if pick(x).Some? then [pick(x).value] else [])
  {
    var at :| PicksAt(s, pick, r, at);
    if pick(x).Some? {
      PicksOneMore(s, pick, r, at, x);
    } else {
      assert r + [] == r;
      forall i | 0 <= i < |s + [x]| && pick((s + [x])[i]).Some? ensures i in at {
        assert (s + [x])[i] == s[i];
      }
      assert PicksAt(s + [x], pick, r, at);
    }
  }
}
