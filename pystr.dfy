/**
 * The few Python string operations the request handler relies on, on
 * strings as sequences of characters: `s.split(c)`, `s.split(c, 1)` and the
 * slice `s[:k]`.
 */
module PyStr {
  import opened Wrappers

  /** The number of occurrences of `c` in `s`. */
  function Count(s: string, c: char): (n: nat)
  {
    if s == [] then 0 else (if s[0] == c then 1 else 0) + Count(s[1..], c)
  }

  /**
   * Python's `s.split(sep)` for a one-character separator: the pieces between
   * separators, empty pieces included, so that `"".split(",") == [""]` and
   * `"a,".split(",") == ["a", ""]`.
   */
  function Split(s: string, sep: char): (parts: seq<string>)
    ensures |parts| >= 1
    decreases |s|
  {
    if s == [] then [""]
    else if s[0] == sep then [""] + Split(s[1..], sep)
    else
      var rest := Split(s[1..], sep);
      [[s[0]] + rest[0]] + rest[1..]
  }

  /** Python's `sep.join(parts)`, the inverse of `Split`. */
  function Join(parts: seq<string>, sep: char): (joined: string)
  {
    if parts == [] then ""
    else if |parts| == 1 then parts[0]
    else parts[0] + [sep] + Join(parts[1..], sep)
  }

  /** There is one more piece than there are separators. */
  lemma {:induction false} SplitLength(s: string, sep: char)
    ensures |Split(s, sep)| == Count(s, sep) + 1
    decreases |s|
  {
    if s != [] {
      SplitLength(s[1..], sep);
    }
  }

  /** No piece contains the separator. */
  lemma {:induction false} SplitPiecesFree(s: string, sep: char)
    ensures forall i :: 0 <= i < |Split(s, sep)| ==> sep !in Split(s, sep)[i]
    decreases |s|
  {
    if s != [] {
      SplitPiecesFree(s[1..], sep);
      if s[0] != sep {
        var rest := Split(s[1..], sep);
        assert Split(s, sep)[0] == [s[0]] + rest[0];
        assert forall i :: 1 <= i < |Split(s, sep)| ==> Split(s, sep)[i] == rest[i];
      }
    }
  }

  /** Joining the pieces with the separator gives back the string. */
  lemma {:induction false} JoinSplit(s: string, sep: char)
    ensures Join(Split(s, sep), sep) == s
    decreases |s|
  {
    if s != [] {
      var rest := Split(s[1..], sep);
      JoinSplit(s[1..], sep);
      if s[0] == sep {
        assert Split(s, sep) == [""] + rest;
        assert ([""] + rest)[1..] == rest;
      } else {
        var parts := Split(s, sep);
        assert parts[1..] == rest[1..];
        if |rest| > 1 {
          assert Join(rest, sep) == rest[0] + [sep] + Join(rest[1..], sep);
        }
      }
    }
  }

  /** A leading character of the first piece stays in front of the join. */
  lemma JoinConsChar(c: char, t: string, more: seq<string>, sep: char)
    ensures Join([[c] + t] + more, sep) == [c] + Join([t] + more, sep)
  {
    if more != [] {
      assert ([[c] + t] + more)[1..] == more;
      assert ([t] + more)[1..] == more;
    }
  }

  /** Splitting the join of separator-free pieces gives back the pieces. */
  lemma {:induction false} SplitJoin(parts: seq<string>, sep: char)
    requires |parts| >= 1
    requires forall i :: 0 <= i < |parts| ==> sep !in parts[i]
    ensures Split(Join(parts, sep), sep) == parts
    decreases |Join(parts, sep)|, |parts|
  {
    var head, more := parts[0], parts[1..];
    assert parts == [head] + more;
    if head == [] {
      if more != [] {
        assert Join(parts, sep) == [sep] + Join(more, sep);
        SplitJoin(more, sep);
        assert ([sep] + Join(more, sep))[1..] == Join(more, sep);
      }
    } else {
      var c, t := head[0], head[1..];
      assert head == [c] + t;
      JoinConsChar(c, t, more, sep);
      var s := Join(parts, sep);
      var tail: seq<string> := [t] + more;
      assert s[1..] == Join(tail, sep);
      forall i | 0 <= i < |tail| ensures sep !in tail[i] {
        if i == 0 {
          assert forall k :: 0 <= k < |t| ==> t[k] == head[k + 1];
        } else {
          assert tail[i] == parts[i];
        }
      }
      SplitJoin(tail, sep);
    }
  }

  /** Two separator-free pieces joined by the separator split back into them. */
  lemma SplitTwo(s: string, a: string, b: string, sep: char)
    requires s == a + [sep] + b && sep !in a && sep !in b
    ensures Split(s, sep) == [a, b]
  {
    assert s == Join([a, b], sep);
    SplitJoin([a, b], sep);
  }

  /**
   * Python's `s.split(sep, 1)`: the text before and after the first `sep`,
   * or None when `sep` does not occur (Python then returns a one-element list).
   */
  function Partition(s: string, sep: char): (r: Option<(string, string)>)
    ensures r.None? <==> sep !in s
    ensures r.Some? ==> r.value.0 + [sep] + r.value.1 == s && sep !in r.value.0
  {
    if s == [] then None
    else if s[0] == sep then Some(([], s[1..]))
    else match Partition(s[1..], sep)
      case None => None
      case Some((before, after)) => Some(([s[0]] + before, after))
  }

  /** Python's slice `s[:k]` for a non-negative `k`. */
  function Take(s: string, k: nat): (r: string)
    ensures r <= s
    ensures |r| == if |s| < k then |s| else k
  {
    if |s| <= k then s else s[..k]
  }
}
