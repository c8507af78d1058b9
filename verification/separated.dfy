/**
  Text cut at a separator character: Go's strings.Split(s, sep) for a
  one-character separator, and its inverse, joining pieces with the
  separator. Dotted-quad addresses and DNS query names use '.', and fmt's
  rendering of a string slice separates its elements with ' '.
 */
module Separated {

  /** Number of occurrences of `sep` in a string. */
  function Count(s: string, sep: char): nat
  {
    if |s| == 0 then 0 else (if s[0] == sep then 1 else 0) + Count(s[1..], sep)
  }

  /** No piece contains the separator. */
  predicate Free(parts: seq<string>, sep: char) {
    forall i :: 0 <= i < |parts| ==> sep !in parts[i]
  }

  /**
    strings.Split(s, sep): the maximal separator-free pieces between
    separators; one more piece than there are separators, empty pieces
    included.
   */
  function Split(s: string, sep: char): (parts: seq<string>)
    ensures |parts| == Count(s, sep) + 1
    ensures Free(parts, sep)
    decreases |s|
  {
    if |s| == 0 then [""]
    else
      var rest := Split(s[1..], sep);
      if s[0] == sep then [""] + rest
      else [[s[0]] + rest[0]] + rest[1..]
  }

  /** The pieces joined by single separators. */
  function Join(parts: seq<string>, sep: char): string
    requires |parts| >= 1
    decreases |parts|
  {
    if |parts| == 1 then parts[0] else parts[0] + [sep] + Join(parts[1..], sep)
  }

  lemma {:induction false} SplitFree(p: string, sep: char)
    requires sep !in p
    ensures Split(p, sep) == [p]
    decreases |p|
  {
    if |p| > 0 {
      assert sep !in p[1..] by {
        forall i | 0 <= i < |p[1..]| ensures p[1..][i] != sep {
          assert p[1..][i] == p[i + 1];
        }
      }
      SplitFree(p[1..], sep);
      assert [p[0]] + p[1..] == p;
    }
  }

  /** A separator-free head followed by a separator splits off as the first piece. */
  lemma {:induction false} SplitAfterHead(p: string, sep: char, t: string)
    requires sep !in p
    ensures Split(p + [sep] + t, sep) == [p] + Split(t, sep)
    decreases |p|
  {
    var s := p + [sep] + t;
    if |p| == 0 {
      assert s[1..] == t;
    } else {
      assert sep !in p[1..] by {
        forall i | 0 <= i < |p[1..]| ensures p[1..][i] != sep {
          assert p[1..][i] == p[i + 1];
        }
      }
      assert s[1..] == p[1..] + [sep] + t;
      SplitAfterHead(p[1..], sep, t);
      assert [p[0]] + p[1..] == p;
    }
  }

  /** Splitting undoes joining separator-free pieces. */
  lemma {:induction false} SplitJoin(parts: seq<string>, sep: char)
    requires |parts| >= 1 && Free(parts, sep)
    ensures Split(Join(parts, sep), sep) == parts
    decreases |parts|
  {
    if |parts| == 1 {
      SplitFree(parts[0], sep);
    } else {
      assert sep !in parts[0];
      SplitJoin(parts[1..], sep);
      SplitAfterHead(parts[0], sep, Join(parts[1..], sep));
      assert [parts[0]] + parts[1..] == parts;
    }
  }

  /** Joining undoes splitting: nothing of the string is lost. */
  lemma {:induction false} JoinSplit(s: string, sep: char)
    ensures Join(Split(s, sep), sep) == s
    decreases |s|
  {
    if |s| > 0 {
      var rest := Split(s[1..], sep);
      JoinSplit(s[1..], sep);
      if s[0] == sep {
        assert ([""] + rest)[1..] == rest;
      } else {
        var parts := [[s[0]] + rest[0]] + rest[1..];
        if |rest| > 1 {
          assert parts[1..] == rest[1..];
        }
        assert s == [s[0]] + s[1..];
      }
    }
  }

  /** Joined separator-free pieces followed by a separator and a tail split
      into the pieces followed by the pieces of the tail. */
  lemma {:induction false} SplitJoinThen(parts: seq<string>, sep: char, t: string)
    requires |parts| >= 1 && Free(parts, sep)
    ensures Split(Join(parts, sep) + [sep] + t, sep) == parts + Split(t, sep)
    decreases |parts|
  {
    assert sep !in parts[0];
    if |parts| == 1 {
      SplitAfterHead(parts[0], sep, t);
    } else {
      var tail := Join(parts[1..], sep) + [sep] + t;
      assert Join(parts, sep) + [sep] + t == parts[0] + [sep] + tail;
      SplitAfterHead(parts[0], sep, tail);
      SplitJoinThen(parts[1..], sep, t);
      assert [parts[0]] + parts[1..] == parts;
    }
  }

  /** Four pieces joined: the text a "%s.%s.%s.%s"-style format produces. */
  lemma JoinFour(parts: seq<string>, sep: char)
    requires |parts| == 4
    ensures Join(parts, sep) == parts[0] + [sep] + parts[1] + [sep] + parts[2] + [sep] + parts[3]
  {
    assert Join(parts[3..], sep) == parts[3];
    assert Join(parts[2..], sep) == parts[2] + [sep] + parts[3] by {
      assert parts[2..][1..] == parts[3..];
    }
    assert Join(parts[1..], sep) == parts[1] + [sep] + parts[2] + [sep] + parts[3] by {
      assert parts[1..][1..] == parts[2..];
    }
  }
}
