/**
 * Menu paths are '/'-separated strings. The controller cuts them with .NET's
 * String.Split('/'), which keeps empty pieces ("a//b" has three segments, "" has one),
 * and Item.FullPath glues names back together with '/'.
 */
module Paths {

  const Separator: char := '/'

  /** String.Split('/'): every separator cuts, empty pieces are kept, never an empty result. */
  function Split(s: string): (r: seq<string>)
    ensures |r| >= 1
    ensures forall i | 0 <= i < |r| :: Separator !in r[i]
    decreases |s|
  {
    if |s| == 0 then [""]
    else
      var rest := Split(s[1..]);
      if s[0] == Separator then [""] + rest
      else [[s[0]] + rest[0]] + rest[1..]
  }

  /** The segments joined with '/' between consecutive ones (String.Join("/", segs)). */
  function Join(segs: seq<string>): string
    decreases |segs|
  {
    if |segs| == 0 then ""
    else if |segs| == 1 then segs[0]
    else segs[0] + [Separator] + Join(segs[1..])
  }

  /** No segment contains the separator. */
  predicate Plain(segs: seq<string>)
  {
    forall i | 0 <= i < |segs| :: Separator !in segs[i]
  }

  /** Joining the pieces of a split gives back the original path. */
  lemma {:induction false} JoinSplit(s: string)
    ensures Join(Split(s)) == s
    decreases |s|
  {
    if |s| > 0 {
      JoinSplit(s[1..]);
      var rest := Split(s[1..]);
      if s[0] == Separator {
        assert Split(s) == [""] + rest;
        assert Join([""] + rest) == "" + [Separator] + Join(rest);
        assert s == [s[0]] + s[1..];
      } else {
        if |rest| == 1 {
          assert Split(s) == [[s[0]] + rest[0]];
          assert s == [s[0]] + s[1..];
        } else {
          assert Split(s) == [[s[0]] + rest[0]] + rest[1..];
          assert Join(rest) == rest[0] + [Separator] + Join(rest[1..]);
          assert ([[s[0]] + rest[0]] + rest[1..])[1..] == rest[1..];
          assert s == [s[0]] + s[1..];
        }
      }
    }
  }

  /** A piece without separators followed by a separator splits off as one segment. */
  lemma {:induction false} SplitCons(w: string, s: string)
    requires Separator !in w
    ensures Split(w + [Separator] + s) == [w] + Split(s)
    decreases |w|
  {
    if |w| == 0 {
      assert w + [Separator] + s == [Separator] + s;
      assert ([Separator] + s)[1..] == s;
    } else {
      SplitCons(w[1..], s);
      var full := w + [Separator] + s;
      assert full[0] == w[0];
      assert full[1..] == w[1..] + [Separator] + s;
      assert [w[0]] + w[1..] == w;
    }
  }

  /** A piece without separators splits to itself. */
  lemma {:induction false} SplitPlain(w: string)
    requires Separator !in w
    ensures Split(w) == [w]
    decreases |w|
  {
    if |w| > 0 {
      SplitPlain(w[1..]);
      assert [w[0]] + w[1..] == w;
    }
  }

  /** Splitting a join of separator-free segments gives the segments back. */
  lemma {:induction false} SplitJoin(segs: seq<string>)
    requires |segs| >= 1 && Plain(segs)
    ensures Split(Join(segs)) == segs
    decreases |segs|
  {
    if |segs| == 1 {
      SplitPlain(segs[0]);
    } else {
      assert Plain(segs[1..]) by {
        forall i | 0 <= i < |segs[1..]| ensures Separator !in segs[1..][i] {
          assert segs[1..][i] == segs[i + 1];
        }
      }
      SplitJoin(segs[1..]);
      SplitCons(segs[0], Join(segs[1..]));
      assert [segs[0]] + segs[1..] == segs;
    }
  }

  /** Appending a segment to a non-empty list appends "/" and the segment to the join. */
  lemma {:induction false} JoinSnoc(a: seq<string>, x: string)
    requires |a| >= 1
    ensures Join(a + [x]) == Join(a) + [Separator] + x
    decreases |a|
  {
    if |a| == 1 {
      assert a + [x] == [a[0], x];
      assert [a[0], x][1..] == [x];
    } else {
      JoinSnoc(a[1..], x);
      assert (a + [x])[1..] == a[1..] + [x];
    }
  }
}
