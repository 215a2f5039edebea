/**
 * per-instance-job.py, `comma_separated_list`: the argument type of `--buckets`, a
 * comma-separated list given through a Batch job parameter.
 */
module PerInstanceJob {
  import opened Strings

  const EmptyListMessage: string := "List is empty"

  /** Every piece with the surrounding whitespace removed. */
  function StripEach(pieces: seq<string>): (r: seq<string>)
    ensures |r| == |pieces| && forall i | 0 <= i < |r| :: r[i] == Strip(pieces[i])
  {
    seq(|pieces|, i requires 0 <= i < |pieces| => Strip(pieces[i]))
  }

  /** The non-empty pieces, in their order. */
  function DropEmpty(pieces: seq<string>): (r: seq<string>)
    ensures forall x <- r :: x != "" && x in pieces
    ensures forall x <- pieces :: x != "" ==> x in r
    ensures |r| <= |pieces|
    ensures r == [] <==> forall i | 0 <= i < |pieces| :: pieces[i] == ""
  {
    if pieces == [] then []
    else
      assert forall y <- pieces[1..] :: y in pieces;
      assert forall i | 1 <= i < |pieces| :: pieces[i] == pieces[1..][i - 1];
      (if pieces[0] == "" then [] else [pieces[0]]) + DropEmpty(pieces[1..])
  }

  /** Filtering a concatenation filters each side: the kept pieces stay in their order. */
  lemma {:induction false} DropEmptyAppend(a: seq<string>, b: seq<string>)
    ensures DropEmpty(a + b) == DropEmpty(a) + DropEmpty(b)
    decreases |a|
  {
    if a == [] {
      assert a + b == b;
    } else {
      assert (a + b)[0] == a[0] && (a + b)[1..] == a[1..] + b;
      DropEmptyAppend(a[1..], b);
    }
  }

  /**
   * `kept` is `pieces` at the strictly increasing positions `idx`, and those positions are
   * exactly the ones holding a non-empty piece.
   */
  predicate KeptAt(pieces: seq<string>, kept: seq<string>, idx: seq<nat>) {
    |idx| == |kept| &&
    (forall k | 0 <= k < |idx| :: idx[k] < |pieces| && kept[k] == pieces[idx[k]]) &&
    (forall k, l | 0 <= k < l < |idx| :: idx[k] < idx[l]) &&
    (forall i | 0 <= i < |pieces| :: pieces[i] != "" <==> i in idx)
  }

  /** The kept pieces are exactly the non-empty ones, in order. */
  lemma {:induction false} DropEmptyIndices(pieces: seq<string>) returns (idx: seq<nat>)
    ensures KeptAt(pieces, DropEmpty(pieces), idx)
    decreases |pieces|
  {
    if pieces == [] {
      idx := [];
    } else {
      var tail := pieces[1..];
      var rest := DropEmptyIndices(tail);
      KeptAtCons(pieces[0], tail, DropEmpty(tail), rest);
      idx := ConsIndex(pieces[0], rest);
      assert pieces == [pieces[0]] + tail;
    }
  }

  /** Every position one further on. */
  function Shifted(rest: seq<nat>): (s: seq<nat>)
    ensures |s| == |rest| && forall k | 0 <= k < |rest| :: s[k] == rest[k] + 1
  {
    seq(|rest|, k requires 0 <= k < |rest| => rest[k] + 1)
  }

  /** Positions for one more piece in front: 0 if that piece is kept, then the old ones shifted. */
  function ConsIndex(p: string, rest: seq<nat>): seq<nat> {
    (if p == "" then [] else [0]) + Shifted(rest)
  }

  lemma KeptAtCons(p: string, tail: seq<string>, kept: seq<string>, rest: seq<nat>)
    requires KeptAt(tail, kept, rest)
    ensures KeptAt([p] + tail, (if p == "" then [] else [p]) + kept, ConsIndex(p, rest))
  {
    ConsValues(p, tail, kept, rest);
    ConsOrder(p, rest);
    ConsCover(p, tail, rest);
  }

  lemma ConsValues(p: string, tail: seq<string>, kept: seq<string>, rest: seq<nat>)
    requires |rest| == |kept| && forall k | 0 <= k < |rest| :: rest[k] < |tail| && kept[k] == tail[rest[k]]
    ensures var idx, r := ConsIndex(p, rest), (if p == "" then [] else [p]) + kept;
      |idx| == |r| && forall k | 0 <= k < |idx| :: idx[k] < |[p] + tail| && r[k] == ([p] + tail)[idx[k]]
  {
    var idx, r := ConsIndex(p, rest), (if p == "" then [] else [p]) + kept;
    var h := if p == "" then 0 else 1;
    forall k | 0 <= k < |idx| ensures idx[k] < |[p] + tail| && r[k] == ([p] + tail)[idx[k]] {
      if k >= h {
        assert idx[k] == rest[k - h] + 1 && r[k] == kept[k - h];
      }
    }
  }

  lemma ConsOrder(p: string, rest: seq<nat>)
    requires forall k, l | 0 <= k < l < |rest| :: rest[k] < rest[l]
    ensures var idx := ConsIndex(p, rest); forall k, l | 0 <= k < l < |idx| :: idx[k] < idx[l]
  {
    var idx := ConsIndex(p, rest);
    var h := if p == "" then 0 else 1;
    forall k, l | 0 <= k < l < |idx| ensures idx[k] < idx[l] {
      if k >= h {
        assert idx[k] == rest[k - h] + 1;
      }
      assert idx[l] == rest[l - h] + 1;
    }
  }

  lemma ConsCover(p: string, tail: seq<string>, rest: seq<nat>)
    requires forall i | 0 <= i < |tail| :: tail[i] != "" <==> i in rest
    ensures var idx := ConsIndex(p, rest); forall i | 0 <= i < |[p] + tail| :: ([p] + tail)[i] != "" <==> i in idx
  {
    var pieces, idx, shifted := [p] + tail, ConsIndex(p, rest), Shifted(rest);
    forall i | 0 <= i < |pieces| ensures pieces[i] != "" <==> i in idx {
      if i == 0 {
        assert 0 !in shifted;
      } else {
        assert pieces[i] == tail[i - 1];
        if i - 1 in rest {
          var m :| 0 <= m < |rest| && rest[m] == i - 1;
          assert shifted[m] == i;
        }
        if i in shifted {
          var m :| 0 <= m < |shifted| && shifted[m] == i;
          assert rest[m] == i - 1;
        }
      }
    }
  }

  /** `comma_separated_list(arg)`: split on commas, strip each piece, drop the empty ones. */
  function CommaSeparatedList(arg: string): (r: Result<seq<string>, string>)
    ensures r.Failure? ==> r.error == EmptyListMessage
    ensures r.Success? ==> |r.value| <= |Split(arg, ',')| && forall x <- r.value :: x != ""
  {
    var items := DropEmpty(StripEach(Split(arg, ',')));
    if |items| == 0 then Failure(EmptyListMessage) else Success(items)
  }

  /**
   * Every item is non-empty, has no whitespace at either end and holds no comma: each is
   * the stripped text of one piece between commas.
   */
  lemma ItemsAreStrippedPieces(arg: string)
    requires CommaSeparatedList(arg).Success?
    ensures var items := CommaSeparatedList(arg).value;
      |items| > 0 &&
      forall x <- items ::
        x != "" && !IsSpace(x[0]) && !IsSpace(x[|x| - 1]) && ',' !in x &&
        exists piece <- Split(arg, ',') :: x == Strip(piece)
  {
    var pieces := Split(arg, ',');
    SplitPartsLackSeparator(arg, ',');
    forall x <- CommaSeparatedList(arg).value
      ensures !IsSpace(x[0]) && !IsSpace(x[|x| - 1]) && ',' !in x
      ensures exists piece <- pieces :: x == Strip(piece)
    {
      var k :| 0 <= k < |pieces| && x == StripEach(pieces)[k];
      var i, j := StripInfix(pieces[k]);
      assert x == pieces[k][i..j];
      assert pieces[k] in pieces;
    }
  }

  /**
   * For every argument: the items are the stripped pieces between commas that are not
   * blank, all of them and in their order; with none, the argument is rejected.
   */
  lemma CommaSeparatedListPieces(arg: string) returns (idx: seq<nat>)
    ensures var pieces := Split(arg, ',');
      (forall k | 0 <= k < |idx| :: idx[k] < |pieces|) &&
      (forall k, l | 0 <= k < l < |idx| :: idx[k] < idx[l]) &&
      (forall i | 0 <= i < |pieces| :: !Blank(pieces[i]) <==> i in idx) &&
      (CommaSeparatedList(arg).Failure? <==> idx == []) &&
      (CommaSeparatedList(arg).Success? ==>
        |CommaSeparatedList(arg).value| == |idx| &&
        forall k | 0 <= k < |idx| :: CommaSeparatedList(arg).value[k] == Strip(pieces[idx[k]]))
  {
    var pieces := Split(arg, ',');
    var stripped := StripEach(pieces);
    idx := DropEmptyIndices(stripped);
    assert KeptAt(stripped, DropEmpty(stripped), idx);
    forall i | 0 <= i < |pieces| ensures !Blank(pieces[i]) <==> stripped[i] != "" {
      StripEmptyIff(pieces[i]);
    }
  }

  /** Nothing but whitespace (possibly nothing at all). */
  predicate Blank(s: string) {
    forall k | 0 <= k < |s| :: IsSpace(s[k])
  }

  /** The list is rejected exactly when every piece between commas is blank, as in `""` or `" , ,"`. */
  lemma RejectedIffBlank(arg: string)
    ensures CommaSeparatedList(arg).Failure? <==> forall piece <- Split(arg, ',') :: Blank(piece)
  {
    var pieces := Split(arg, ',');
    var stripped := StripEach(pieces);
    forall i | 0 <= i < |pieces| ensures stripped[i] == "" <==> Blank(pieces[i]) {
      StripEmptyIff(pieces[i]);
    }
    if forall piece <- pieces :: Blank(piece) {
      forall i | 0 <= i < |stripped| ensures stripped[i] == "" {
        assert pieces[i] in pieces;
      }
    } else {
      var piece :| piece in pieces && !Blank(piece);
      var i :| 0 <= i < |pieces| && piece == pieces[i];
      assert stripped[i] in stripped;
    }
  }

  /** Items that are already clean come back unchanged, in order, from their comma-joined text. */
  lemma {:induction false} JoinedItemsRoundTrip(items: seq<string>)
    requires |items| > 0
    requires forall x <- items :: x != "" && !IsSpace(x[0]) && !IsSpace(x[|x| - 1]) && ',' !in x
    ensures CommaSeparatedList(Join(',', items)) == Success(items)
  {
    SplitJoin(items, ',');
    forall x <- items ensures Strip(x) == x {
      StripIdentity(x);
    }
    CleanPiecesKept(items);
  }

  lemma CleanPiecesKept(items: seq<string>)
    requires forall x <- items :: x != "" && Strip(x) == x
    ensures DropEmpty(StripEach(items)) == items
  {
    assert StripEach(items) == items;
    NonEmptyKept(items);
  }

  /** The filter keeps a list with no empty piece as it is. */
  lemma {:induction false} NonEmptyKept(pieces: seq<string>)
    requires forall x <- pieces :: x != ""
    ensures DropEmpty(pieces) == pieces
    decreases |pieces|
  {
    if pieces != [] {
      assert pieces[0] in pieces && forall x <- pieces[1..] :: x in pieces;
      NonEmptyKept(pieces[1..]);
      assert pieces == [pieces[0]] + pieces[1..];
    }
  }
}
