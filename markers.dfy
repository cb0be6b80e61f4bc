/**
  The marker filter: which comment tokens of the bundle are module-ID
  markers (lib/analyze-bundle.js, lines 48-53).
*/
module Markers {
  import opened JsString

  datatype CommentKind = Block | Line

  /**
    A comment token as the parser reports it: `value` is the text between
    the delimiters, `start` the offset of the comment's first character and
    `end` the offset just past its last.
  */
  datatype Comment = Comment(kind: CommentKind, value: string, start: nat, end: nat)

  /** The comment text matches `^ [0-9]+ $`: one space, one or more digits, one space. */
  predicate IsIdValue(v: string)
  {
    |v| >= 3 && v[0] == ' ' && v[|v| - 1] == ' ' && AllDigits(v[1..|v| - 1])
  }

  predicate HasDigit(x: string)
  {
    exists i :: 0 <= i < |x| && IsDigit(x[i])
  }

  /**
    The lookahead behind a candidate marker. It inspects the text from
    `end + 1`, one character past the closing delimiter's successor.
  */
  predicate FollowedByModule(code: string, end: nat)
  {
    var x := Substr(code, end + 1, 1);
    x == "," || x == "[" || HasDigit(x) || Substr(code, end + 1, 8) == "function"
  }

  predicate IsMarker(code: string, c: Comment)
  {
    c.kind == Block && IsIdValue(c.value) && FollowedByModule(code, c.end)
  }

  /** `comments.filter(...)`: the markers, in their original order. */
  function MarkerComments(code: string, comments: seq<Comment>): (r: seq<Comment>)
    ensures |r| <= |comments|
  {
    if comments == [] then []
    else if IsMarker(code, comments[0]) then [comments[0]] + MarkerComments(code, comments[1..])
    else MarkerComments(code, comments[1..])
  }

  /** The filter keeps markers only, and every marker. */
  lemma {:induction false} MarkerCommentsSpec(code: string, comments: seq<Comment>)
    ensures forall c :: c in MarkerComments(code, comments) ==> c in comments && IsMarker(code, c)
    ensures forall c :: c in comments && IsMarker(code, c) ==> c in MarkerComments(code, comments)
    decreases |comments|
  {
    if comments != [] {
      MarkerCommentsSpec(code, comments[1..]);
      assert comments == [comments[0]] + comments[1..];
    }
  }

  /** The lookahead spelled out: what stands at `end + 1`, and nothing when that is past the end. */
  lemma LookaheadAt(code: string, end: nat)
    ensures FollowedByModule(code, end) <==>
      (end + 1 < |code| && (code[end + 1] == ',' || code[end + 1] == '[' || IsDigit(code[end + 1])))
      || (end + 9 <= |code| && code[end + 1..end + 9] == "function")
  {
    var x := Substr(code, end + 1, 1);
    if end + 1 < |code| {
      assert x == [code[end + 1]];
      assert HasDigit(x) <==> IsDigit(code[end + 1]) by {
        if IsDigit(code[end + 1]) { assert IsDigit(x[0]); }
      }
    } else {
      assert x == "";
    }
    var y := Substr(code, end + 1, 8);
    if end + 9 <= |code| {
      assert y == code[end + 1..end + 9];
    } else {
      assert |y| < 8;
    }
  }

  /** `f` lists increasing positions of `b` whose elements, in turn, make up `a`. */
  ghost predicate Embeds<T>(f: seq<nat>, a: seq<T>, b: seq<T>)
  {
    && |f| == |a|
    && (forall i :: 0 <= i < |f| ==> f[i] < |b| && a[i] == b[f[i]])
    && (forall i, j :: 0 <= i < j < |f| ==> f[i] < f[j])
  }

  function Shifted(f: seq<nat>): (g: seq<nat>)
    ensures |g| == |f| && forall i :: 0 <= i < |f| ==> g[i] == f[i] + 1
  {
    seq(|f|, i requires 0 <= i < |f| => f[i] + 1)
  }

  /** The positions of the markers among the comments, in order. */
  ghost function Positions(code: string, comments: seq<Comment>): seq<nat>
  {
    if comments == [] then []
    else (if IsMarker(code, comments[0]) then [0] else []) + Shifted(Positions(code, comments[1..]))
  }

  lemma {:induction false} PositionsEmbed(code: string, comments: seq<Comment>)
    ensures Embeds(Positions(code, comments), MarkerComments(code, comments), comments)
    decreases |comments|
  {
    if comments != [] {
      var x, rest := comments[0], comments[1..];
      PositionsEmbed(code, rest);
      EmbedsCons(Positions(code, rest), MarkerComments(code, rest), rest, x, IsMarker(code, x));
      assert comments == [x] + rest;
    }
  }

  lemma {:induction false} PositionsComplete(code: string, comments: seq<Comment>, k: nat)
    requires k < |comments| && IsMarker(code, comments[k])
    ensures k in Positions(code, comments)
    decreases k
  {
    if k > 0 {
      var rest := comments[1..];
      assert rest[k - 1] == comments[k];
      PositionsComplete(code, rest, k - 1);
      var f' := Positions(code, rest);
      var i :| 0 <= i < |f'| && f'[i] == k - 1;
      var f := Positions(code, comments);
      var head := if IsMarker(code, comments[0]) then [0] else [];
      assert f == head + Shifted(f');
      assert f[|head| + i] == k;
    }
  }

  /** Prepending one element to the source shifts an embedding by one; keeping it as well adds position 0. */
  lemma EmbedsCons<T>(f: seq<nat>, a: seq<T>, b: seq<T>, x: T, keep: bool)
    requires Embeds(f, a, b)
    ensures Embeds((if keep then [0] else []) + Shifted(f), if keep then [x] + a else a, [x] + b)
  {
  }

  /** `f` holds the positions of the kept comments, in order, and every position holding a marker. */
  ghost predicate MarkerPositions(f: seq<nat>, code: string, comments: seq<Comment>)
  {
    && Embeds(f, MarkerComments(code, comments), comments)
    && forall k :: 0 <= k < |comments| && IsMarker(code, comments[k]) ==> k in f
  }

  /**
    The filter keeps exactly the markers and keeps them in order: the kept
    comments sit at increasing positions of the input, and every position
    holding a marker is among them.
  */
  lemma MarkersInOrder(code: string, comments: seq<Comment>)
    ensures exists f :: MarkerPositions(f, code, comments)
  {
    var f := Positions(code, comments);
    PositionsEmbed(code, comments);
    forall k | 0 <= k < |comments| && IsMarker(code, comments[k]) ensures k in f {
      PositionsComplete(code, comments, k);
    }
    assert MarkerPositions(f, code, comments);
  }

  /** Comments in source order, not overlapping, each inside the code. */
  predicate WellPlaced(code: string, cs: seq<Comment>)
  {
    && (forall i :: 0 <= i < |cs| ==> cs[i].start < cs[i].end <= |code|)
    && (forall i, j :: 0 <= i < j < |cs| ==> cs[i].end <= cs[j].start)
  }

  lemma WellPlacedTail(code: string, cs: seq<Comment>)
    requires WellPlaced(code, cs) && cs != []
    ensures WellPlaced(code, cs[1..])
  {
    var rest := cs[1..];
    forall i, j | 0 <= i < j < |rest| ensures rest[i].end <= rest[j].start {
      assert rest[i] == cs[i + 1] && rest[j] == cs[j + 1];
    }
  }

  lemma WellPlacedCons(code: string, x: Comment, m: seq<Comment>)
    requires WellPlaced(code, m) && x.start < x.end <= |code|
    requires forall y :: y in m ==> x.end <= y.start
    ensures WellPlaced(code, [x] + m)
  {
    var r := [x] + m;
    forall i, j | 0 <= i < j < |r| ensures r[i].end <= r[j].start {
      if i > 0 {
        assert r[i] == m[i - 1] && r[j] == m[j - 1];
      } else {
        assert r[j] in m;
      }
    }
  }

  /** Filtering keeps the comments in source order and apart. */
  lemma {:induction false} MarkersWellPlaced(code: string, comments: seq<Comment>)
    requires WellPlaced(code, comments)
    ensures WellPlaced(code, MarkerComments(code, comments))
    decreases |comments|
  {
    if comments != [] {
      var x, rest := comments[0], comments[1..];
      WellPlacedTail(code, comments);
      MarkersWellPlaced(code, rest);
      var m := MarkerComments(code, rest);
      MarkerCommentsSpec(code, rest);
      if IsMarker(code, x) {
        forall y | y in m ensures x.end <= y.start {
          var j :| 0 <= j < |rest| && rest[j] == y;
          assert comments[j + 1] == y;
        }
        WellPlacedCons(code, x, m);
      }
    }
  }
}
