/**
 * `global_split` of the relay server: cut a string into the pieces that lie
 * between the occurrences of a token, using `std::string::find` to locate
 * the next occurrence.
 */
module Splitting {
  import opened Wrappers

  /** The token `t` occurs in `s` starting at index `i`. */
  predicate OccursAt(s: string, t: string, i: int) {
    0 <= i && i + |t| <= |s| && s[i..i + |t|] == t
  }

  ghost predicate Contains(s: string, t: string) {
    exists i :: 0 <= i <= |s| && OccursAt(s, t, i)
  }

  /** `s.find(t, from)`: the first occurrence of `t` at or after `from`;
   *  `None` stands for `std::string::npos`. */
  function FindFrom(s: string, t: string, from: nat): (r: Option<nat>)
    decreases |s| - from
    ensures r.Some? ==> from <= r.value && OccursAt(s, t, r.value)
    ensures forall i :: from <= i && OccursAt(s, t, i) ==> r.Some? && r.value <= i
  {
    if from + |t| > |s| then None
    else if s[from..from + |t|] == t then Some(from)
    else FindFrom(s, t, from + 1)
  }

  /** `s.find(t)`. */
  function Find(s: string, t: string): (r: Option<nat>)
    ensures r.Some? ==> OccursAt(s, t, r.value) && forall i :: 0 <= i < r.value ==> !OccursAt(s, t, i)
    ensures r.None? ==> !Contains(s, t)
  {
    FindFrom(s, t, 0)
  }

  /** What `global_split(s, t)` returns: the text before the first
   *  occurrence of `t`, then the pieces of the text after it. */
  function Split(s: string, t: string): (r: seq<string>)
    requires |t| > 0
    ensures |r| >= 1
    decreases |s|
  {
    match Find(s, t)
    case None => [s]
    case Some(p) => [s[..p]] + Split(s[p + |t|..], t)
  }

  /** The pieces glued back together with the token between neighbours. */
  function Join(pieces: seq<string>, t: string): string {
    if |pieces| == 0 then ""
    else if |pieces| == 1 then pieces[0]
    else pieces[0] + t + Join(pieces[1..], t)
  }

  /**
   * TCPServer.cpp `global_split`: a do/while loop that pushes the text up to
   * the next token and then drops that text and the token from `data`,
   * until `find` reports `npos`. An empty token would be found at index 0
   * forever, so the loop only terminates for a non-empty token.
   */
  method GlobalSplit(data: string, token: string) returns (output: seq<string>)
    requires |token| > 0
    ensures output == Split(data, token)
    ensures |output| >= 1 && Join(output, token) == data
    ensures forall k :: 0 <= k < |output| ==> !Contains(output[k], token)
  {
    output := [];
    var rest := data;
    while true
      invariant output + Split(rest, token) == Split(data, token)
      decreases |rest|
    {
      var pos := Find(rest, token);
      if pos.None? {
        output := output + [rest];
        break;
      }
      assert Split(rest, token) == [rest[..pos.value]] + Split(rest[pos.value + |token|..], token);
      output := output + [rest[..pos.value]];
      rest := rest[pos.value + |token|..];
    }
    SplitJoin(data, token);
    SplitPiecesHaveNoToken(data, token);
  }

  /** Joining the pieces with the token gives back the original text. */
  lemma {:induction false} SplitJoin(s: string, t: string)
    requires |t| > 0
    ensures Join(Split(s, t), t) == s
    decreases |s|
  {
    var found := Find(s, t);
    if found.Some? {
      var p := found.value;
      SplitJoin(s[p + |t|..], t);
      SplitJoinAt(s, t, p);
    } else {
      assert Split(s, t) == [s];
    }
  }

  /** One step of SplitJoin: the first piece, the token, and the rest. */
  lemma SplitJoinAt(s: string, t: string, p: nat)
    requires |t| > 0 && Find(s, t) == Some(p)
    requires Join(Split(s[p + |t|..], t), t) == s[p + |t|..]
    ensures Join(Split(s, t), t) == s
  {
    var rest := s[p + |t|..];
    assert Split(s, t) == [s[..p]] + Split(rest, t);
    JoinCons(s[..p], Split(rest, t), t);
    assert s[p..p + |t|] == t;
    assert s == s[..p] + s[p..p + |t|] + rest;
  }

  lemma JoinCons(a: string, tail: seq<string>, t: string)
    requires |tail| >= 1
    ensures Join([a] + tail, t) == a + t + Join(tail, t)
  {
    assert ([a] + tail)[1..] == tail;
  }

  /** The text before a first occurrence holds no occurrence itself. */
  lemma PrefixBeforeFirstHasNoToken(s: string, t: string, p: nat)
    requires |t| > 0 && p <= |s|
    requires forall i :: 0 <= i < p ==> !OccursAt(s, t, i)
    ensures !Contains(s[..p], t)
  {
    forall i | OccursAt(s[..p], t, i)
      ensures false
    {
      assert s[..p][i..i + |t|] == s[i..i + |t|];
      assert OccursAt(s, t, i);
    }
  }

  /** No piece contains the token. */
  lemma {:induction false} SplitPiecesHaveNoToken(s: string, t: string)
    requires |t| > 0
    ensures forall k :: 0 <= k < |Split(s, t)| ==> !Contains(Split(s, t)[k], t)
    decreases |s|
  {
    match Find(s, t)
    case None =>
    case Some(p) =>
      PrefixBeforeFirstHasNoToken(s, t, p);
      SplitPiecesHaveNoToken(s[p + |t|..], t);
  }

  /** With a one-character token (the relay's `"|"`), the first occurrence
   *  in `a + t + b` is right after `a` when `a` has none. */
  lemma FindAfterFreePiece(a: string, t: string, b: string)
    requires |t| == 1 && !Contains(a, t)
    ensures Find(a + t + b, t) == Some(|a|)
  {
    var s := a + t + b;
    assert s[|a|..|a| + 1] == t;
    assert OccursAt(s, t, |a|);
    forall i | 0 <= i < |a| && OccursAt(s, t, i)
      ensures false
    {
      assert s[i..i + 1] == a[i..i + 1];
      assert OccursAt(a, t, i);
    }
  }

  /**
   * The converse round trip for a one-character token: splitting a join of
   * token-free pieces gives back those pieces.
   */
  lemma {:induction false} JoinSplit(pieces: seq<string>, t: string)
    requires |t| == 1 && |pieces| >= 1
    requires forall k :: 0 <= k < |pieces| ==> !Contains(pieces[k], t)
    ensures Split(Join(pieces, t), t) == pieces
  {
    if |pieces| == 1 {
      assert Find(pieces[0], t) == None;
    } else {
      var s := Join(pieces, t);
      var rest := Join(pieces[1..], t);
      assert s == pieces[0] + t + rest;
      FindAfterFreePiece(pieces[0], t, rest);
      assert s[..|pieces[0]|] == pieces[0];
      assert s[|pieces[0]| + |t|..] == rest;
      JoinSplit(pieces[1..], t);
      assert pieces == [pieces[0]] + pieces[1..];
    }
  }
}
