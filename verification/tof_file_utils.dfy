/**
 * File-name and file-layout conventions of the time-of-flight data: a stem
 * `{title}{d}{time}{d}{run}` and a single column holding the time samples
 * followed by the signal samples.
 */
module TofFileUtils {
  import opened Wrappers

  /** Python's `s.split(d)` for a one-character delimiter. */
  function Split(s: string, d: char): (pieces: seq<string>)
    ensures |pieces| >= 1
  {
    if |s| == 0 then [""]
    else
      var rest := Split(s[1..], d);
      if s[0] == d then [""] + rest else [[s[0]] + rest[0]] + rest[1..]
  }

  /** No piece holds the delimiter, and there is more than one piece iff the delimiter occurs. */
  lemma {:induction false} SplitPieces(s: string, d: char)
    ensures forall k :: 0 <= k < |Split(s, d)| ==> d !in Split(s, d)[k]
    ensures |Split(s, d)| == 1 <==> d !in s
  {
    if |s| > 0 {
      SplitPieces(s[1..], d);
      var rest := Split(s[1..], d);
      assert d in s <==> s[0] == d || d in s[1..] by {
        assert s == [s[0]] + s[1..];
      }
      if s[0] != d {
        var pieces := Split(s, d);
        assert forall k :: 1 <= k < |pieces| ==> pieces[k] == rest[k];
      }
    }
  }

  /** Python's `d.join(pieces)`; joining nothing gives the empty string. */
  function Join(pieces: seq<string>, d: char): string
  {
    if |pieces| == 0 then ""
    else if |pieces| == 1 then pieces[0]
    else pieces[0] + [d] + Join(pieces[1..], d)
  }

  /** Splitting and rejoining gives back the string. */
  lemma {:induction false} JoinSplit(s: string, d: char)
    ensures Join(Split(s, d), d) == s
  {
    if |s| > 0 {
      var rest := Split(s[1..], d);
      JoinSplit(s[1..], d);
      if s[0] == d {
        assert Split(s, d)[1..] == rest;
        assert s == [d] + s[1..];
      } else {
        var pieces := Split(s, d);
        assert pieces[1..] == rest[1..];
        if |rest| > 1 {
          assert Join(rest, d) == rest[0] + [d] + Join(rest[1..], d);
        }
        assert s == [s[0]] + s[1..];
      }
    }
  }

  /** Joining delimiter-free pieces and splitting again gives back the pieces. */
  lemma {:induction false} SplitJoin(pieces: seq<string>, d: char)
    requires |pieces| >= 1
    requires forall k :: 0 <= k < |pieces| ==> d !in pieces[k]
    ensures Split(Join(pieces, d), d) == pieces
  {
    if |pieces| == 1 {
      SplitFree(pieces[0], d);
    } else {
      SplitJoin(pieces[1..], d);
      SplitAfterFree(pieces[0], Join(pieces[1..], d), d);
      assert pieces == [pieces[0]] + pieces[1..];
    }
  }

  /** A string without the delimiter splits into itself alone. */
  lemma {:induction false} SplitFree(s: string, d: char)
    requires d !in s
    ensures Split(s, d) == [s]
  {
    if |s| > 0 {
      SplitFree(s[1..], d);
      assert s == [s[0]] + s[1..];
    }
  }

  /** A delimiter-free prefix followed by the delimiter opens the split. */
  lemma {:induction false} SplitAfterFree(a: string, b: string, d: char)
    requires d !in a
    ensures Split(a + [d] + b, d) == [a] + Split(b, d)
    decreases |a|
  {
    if |a| == 0 {
      assert a + [d] + b == [d] + b;
      assert ([d] + b)[1..] == b;
    } else {
      SplitAfterFree(a[1..], b, d);
      assert (a + [d] + b)[1..] == a[1..] + [d] + b;
      assert a == [a[0]] + a[1..];
    }
  }

  /** One step of `Split`: the first character either opens a new piece or joins the first one. */
  lemma SplitCons(c: char, t: string, d: char)
    ensures var rest := Split(t, d);
      Split([c] + t, d) == if c == d then [""] + rest else [[c] + rest[0]] + rest[1..]
  {
    assert ([c] + t)[1..] == t;
  }

  /** Splitting at a delimiter splits each side. */
  lemma {:induction false} SplitAppend(a: string, b: string, d: char)
    ensures Split(a + [d] + b, d) == Split(a, d) + Split(b, d)
    decreases |a|
  {
    if |a| == 0 {
      assert a + [d] + b == [d] + b;
      SplitCons(d, b, d);
    } else {
      SplitAppend(a[1..], b, d);
      SplitAppendCons(a[0], a[1..], b, d);
      assert a == [a[0]] + a[1..];
      assert a + [d] + b == [a[0]] + (a[1..] + [d] + b);
    }
  }

  /** The inductive step of `SplitAppend`: putting one character in front keeps the split of the right side. */
  lemma SplitAppendCons(c: char, t: string, b: string, d: char)
    requires Split(t + [d] + b, d) == Split(t, d) + Split(b, d)
    ensures Split([c] + (t + [d] + b), d) == Split([c] + t, d) + Split(b, d)
  {
    SplitCons(c, t + [d] + b, d);
    SplitCons(c, t, d);
    var x, y := Split(t, d), Split(b, d);
    if c == d {
      ConcatAssoc([""], x, y);
    } else {
      ConsFirstPiece([c] + x[0], x, y);
    }
  }

  lemma ConcatAssoc<T>(u: seq<T>, x: seq<T>, y: seq<T>)
    ensures u + (x + y) == (u + x) + y
  {
  }

  /** Extending the first piece commutes with appending more pieces. */
  lemma ConsFirstPiece(p: string, x: seq<string>, y: seq<string>)
    requires |x| > 0
    ensures [p] + (x + y)[1..] == ([p] + x[1..]) + y
  {
    assert (x + y)[1..] == x[1..] + y;
  }

  /** The three fields a file stem names. */
  datatype FileName = FileName(title: string, time: string, run: string)

  /**
   * `parse_file_path` on the stem of the path: the last piece is the run,
   * the one before it the time, and the leading pieces, rejoined, the title.
   * A stem with fewer than two pieces fails at the unpacking.
   */
  function ParseFilePath(stem: string, d: char): (parsed: Result<FileName, string>)
    ensures parsed.Success? <==> d in stem
    ensures parsed.Success? ==> d !in parsed.value.time && d !in parsed.value.run
    ensures parsed.Success? ==> var f := parsed.value;
      stem == f.title + [d] + f.time + [d] + f.run || (f.title == "" && stem == f.time + [d] + f.run)
  {
    var pieces := Split(stem, d);
    SplitPieces(stem, d);
    if |pieces| < 2 then Failure("not enough values to unpack")
    else
      var n := |pieces|;
      var title := Join(pieces[..n - 2], d);
      JoinSplit(stem, d);
      assert n == 2 ==> title == "" && stem == pieces[0] + [d] + pieces[1] by {
        if n == 2 {
          assert pieces[..0] == [];
          assert Join(pieces[1..], d) == pieces[1];
        }
      }
      assert n > 2 ==> stem == title + [d] + pieces[n - 2] + [d] + pieces[n - 1] by {
        if n > 2 {
          JoinOfLastTwo(pieces, d);
        }
      }
      Success(FileName(title, pieces[n - 2], pieces[n - 1]))
  }

  /** With a title piece, rejoining all pieces is rejoining the leading ones, then the last two. */
  lemma {:induction false} JoinOfLastTwo(pieces: seq<string>, d: char)
    requires |pieces| >= 3
    ensures Join(pieces, d) == Join(pieces[..|pieces| - 2], d) + [d] + pieces[|pieces| - 2] + [d] + pieces[|pieces| - 1]
  {
    var n := |pieces|;
    if n == 3 {
      assert pieces[..1] == [pieces[0]];
      assert Join(pieces[1..], d) == pieces[1] + [d] + Join(pieces[2..], d);
    } else {
      JoinOfLastTwo(pieces[1..], d);
      assert pieces[1..][..n - 3] == pieces[..n - 2][1..];
      assert Join(pieces[..n - 2], d) == pieces[0] + [d] + Join(pieces[..n - 2][1..], d);
    }
  }

  /** Parsing a stem built from its three fields gives them back, even when the title holds the delimiter. */
  lemma ParseFilePathRoundTrip(title: string, time: string, run: string, d: char)
    requires d !in time && d !in run
    ensures ParseFilePath(title + [d] + time + [d] + run, d) == Success(FileName(title, time, run))
  {
    var stem := title + [d] + time + [d] + run;
    assert stem == title + [d] + (time + [d] + run);
    SplitAppend(title, time + [d] + run, d);
    SplitAfterFree(time, run, d);
    SplitFree(run, d);
    var pieces := Split(title, d) + [time, run];
    assert Split(stem, d) == pieces;
    assert pieces[..|pieces| - 2] == Split(title, d);
    JoinSplit(title, d);
  }

  /** With two pieces only, the title is empty. */
  lemma ParseFilePathNoTitle(time: string, run: string, d: char)
    requires d !in time && d !in run
    ensures ParseFilePath(time + [d] + run, d) == Success(FileName("", time, run))
  {
    ParseFilePathRoundTrip("", time, run, d);
    assert "" + [d] + time + [d] + run == [d] + time + [d] + run;
    SplitAfterFree(time, run, d);
    SplitFree(run, d);
    assert Split(time + [d] + run, d) == [time, run];
  }

  /**
   * The split in `parse_data`: the first half (rounded down) of the column is
   * the time axis and the rest the signal.
   */
  function SplitStacked(data: seq<real>): (columns: (seq<real>, seq<real>))
    ensures columns.0 + columns.1 == data
    ensures |columns.0| == |data| / 2 && |columns.1| == |columns.0| + |data| % 2
  {
    var midpoint := |data| / 2;
    (data[..midpoint], data[midpoint..])
  }
}
