/**
 * The Accept-Language preference parser of the request handler: a
 * simplified reading of the header of section 5.3.5 of RFC 7231, with
 * quality values as in section 5.3.1. The header is split on ',' into
 * entries, each entry on ';' into a tag and `name=value` parameters; the
 * weight is the `q` parameter read as a float (1.0 when there is none, 0
 * when it does not parse); the entries are stably sorted by descending
 * weight and their tags returned. Nothing is trimmed, case-folded or
 * matched against '*'.
 */
module AcceptLanguage {
  import opened Wrappers
  import opened PyStr

  /** One preference: the tag exactly as written, and its weight. */
  datatype Entry = Entry(tag: string, weight: real)

  /**
   * Why no list can be produced at all: a parameter without '=' makes the
   * construction of the parameter dictionary raise, and that raise is not
   * caught.
   */
  datatype HeaderError = MalformedParameter(param: string)

  /** Python's `float()` on a string: a value, or None where it raises. */
  type FloatParser = string -> Option<real>

  /**
   * The `(name, value)` pairs of `l.split('=', 1)` for every parameter, or
   * the first parameter that has no '='.
   */
  function Pairs(params: seq<string>): (r: Result<seq<(string, string)>, HeaderError>)
    ensures r.Success? <==> forall i :: 0 <= i < |params| ==> '=' in params[i]
    ensures r.Success? ==> |r.value| == |params|
    ensures r.Success? ==> forall i :: 0 <= i < |params| ==>
      r.value[i].0 + "=" + r.value[i].1 == params[i] && '=' !in r.value[i].0
    ensures r.Failure? ==>
      (exists i :: 0 <= i < |params| && '=' !in params[i] &&
        r.error == MalformedParameter(params[i]) &&
        forall j :: 0 <= j < i ==> '=' in params[j])
  {
    if params == [] then Success([])
    else match Partition(params[0], '=')
      case None => Failure(MalformedParameter(params[0]))
      case Some(pair) =>
        match Pairs(params[1..])
        case Failure(e) => Failure(e)
        case Success(more) => Success([pair] + more)
  }

  /** `dict(pairs)`: built in order, so a later name replaces an earlier one. */
  function Dict(pairs: seq<(string, string)>): (attrs: map<string, string>)
    ensures pairs != [] ==> pairs[|pairs| - 1].0 in attrs && attrs[pairs[|pairs| - 1].0] == pairs[|pairs| - 1].1
  {
    if pairs == [] then map[]
    else
      var last := pairs[|pairs| - 1];
      Dict(pairs[..|pairs| - 1])[last.0 := last.1]
  }

  /** The names in the dictionary are exactly the names of the pairs. */
  lemma {:induction false} DictKeys(pairs: seq<(string, string)>)
    ensures forall i :: 0 <= i < |pairs| ==> pairs[i].0 in Dict(pairs)
    ensures forall k :: k in Dict(pairs) ==> exists i :: 0 <= i < |pairs| && pairs[i].0 == k
    decreases |pairs|
  {
    if pairs != [] {
      var init := pairs[..|pairs| - 1];
      DictKeys(init);
      assert forall i :: 0 <= i < |init| ==> init[i] == pairs[i];
    }
  }

  /** A name maps to the value of its last occurrence. */
  lemma {:induction false} DictLastWins(pairs: seq<(string, string)>, i: nat)
    requires i < |pairs|
    requires forall j :: i < j < |pairs| ==> pairs[j].0 != pairs[i].0
    ensures pairs[i].0 in Dict(pairs) && Dict(pairs)[pairs[i].0] == pairs[i].1
    decreases |pairs|
  {
    if i < |pairs| - 1 {
      DictLastWins(pairs[..|pairs| - 1], i);
    }
  }

  /** `float(attrs.get('q', '1.0'))`, with 0 where `float` raises. */
  function Weight(attrs: map<string, string>, parse: FloatParser): (weight: real)
    ensures "q" !in attrs ==> weight == 1.0
    ensures "q" in attrs && parse(attrs["q"]).Some? ==> weight == parse(attrs["q"]).value
    ensures "q" in attrs && parse(attrs["q"]).None? ==> weight == 0.0
  {
    if "q" in attrs then QValue(attrs["q"], parse) else 1.0
  }

  /** The weight a `q` value gives: the parsed number, or 0. */
  function QValue(text: string, parse: FloatParser): (weight: real)
    ensures parse(text).Some? ==> weight == parse(text).value
    ensures parse(text).None? ==> weight == 0.0
  {
    match parse(text)
    case Some(v) => v
    case None => 0.0
  }

  /** The parameters of a piece: all its ';'-fields but the first. */
  function Params(piece: string): (params: seq<string>)
  {
    Split(piece, ';')[1..]
  }

  /** The entry of one comma-separated piece of the header. */
  function ParseEntry(piece: string, parse: FloatParser): (r: Result<Entry, HeaderError>)
    ensures r.Failure? ==> r.error.param in Params(piece) && '=' !in r.error.param
  {
    match Pairs(Params(piece))
    case Failure(e) => Failure(e)
    case Success(pairs) => Success(Entry(Split(piece, ';')[0], Weight(Dict(pairs), parse)))
  }

  /**
   * A piece parses exactly when each of its parameters holds a '=', and its
   * tag is its first ';'-field as written.
   */
  lemma ParseEntrySpec(piece: string, parse: FloatParser)
    ensures ParseEntry(piece, parse).Success? <==>
      forall i :: 0 <= i < |Params(piece)| ==> '=' in Params(piece)[i]
    ensures ParseEntry(piece, parse).Success? ==>
      ParseEntry(piece, parse).value.tag == Split(piece, ';')[0]
    ensures ParseEntry(piece, parse).Failure? ==>
      (exists i :: 0 <= i < |Params(piece)| && '=' !in Params(piece)[i] &&
        ParseEntry(piece, parse).error == MalformedParameter(Params(piece)[i]))
  {
  }

  /** A parameter that names `q`: its text starts with "q=". */
  predicate IsQ(param: string)
  {
    |param| >= 2 && param[0] == 'q' && param[1] == '='
  }

  /** The name of a parameter is "q" exactly when its text starts with "q=". */
  lemma NameIsQ(param: string, name: string, value: string)
    requires name + "=" + value == param && '=' !in name
    ensures name == "q" <==> IsQ(param)
    ensures IsQ(param) ==> value == param[2..]
  {
    if IsQ(param) {
      assert name == [param[0]];
      assert param == "q=" + value;
    }
  }

  /** The `i`-th pair is named `q` exactly when the `i`-th parameter starts with `q=`. */
  lemma PairOfParam(params: seq<string>, pairs: seq<(string, string)>, i: nat)
    requires Pairs(params) == Success(pairs) && i < |params|
    ensures pairs[i].0 == "q" <==> IsQ(params[i])
    ensures IsQ(params[i]) ==> pairs[i].1 == params[i][2..]
  {
    NameIsQ(params[i], pairs[i].0, pairs[i].1);
  }

  /** Without a `q` parameter the weight is 1.0. */
  lemma WeightDefault(piece: string, parse: FloatParser)
    requires ParseEntry(piece, parse).Success?
    requires forall i :: 0 <= i < |Params(piece)| ==> !IsQ(Params(piece)[i])
    ensures ParseEntry(piece, parse).value.weight == 1.0
  {
    var params := Params(piece);
    var pairs := Pairs(params).value;
    DictKeys(pairs);
    if "q" in Dict(pairs) {
      var i :| 0 <= i < |pairs| && pairs[i].0 == "q";
      PairOfParam(params, pairs, i);
      assert false;
    }
  }

  /**
   * With `q` parameters the last one decides: its value read as a float, or
   * 0 when it does not parse.
   */
  lemma WeightLastQ(piece: string, parse: FloatParser, i: nat)
    requires ParseEntry(piece, parse).Success?
    requires i < |Params(piece)| && IsQ(Params(piece)[i])
    requires forall j :: i < j < |Params(piece)| ==> !IsQ(Params(piece)[j])
    ensures ParseEntry(piece, parse).value.weight == QValue(Params(piece)[i][2..], parse)
  {
    var params := Params(piece);
    var pairs := Pairs(params).value;
    PairOfParam(params, pairs, i);
    forall j | i < j < |pairs| ensures pairs[j].0 != pairs[i].0 {
      PairOfParam(params, pairs, j);
    }
    DictLastWins(pairs, i);
  }

  /**
   * The values of a list of results in order, or the error of the first
   * failure: what a loop that appends each value and stops at the first
   * raise leaves behind.
   */
  function Collect<T, E>(rs: seq<Result<T, E>>): (r: Result<seq<T>, E>)
    ensures r.Success? ==> |r.value| == |rs|
    decreases |rs|
  {
    if rs == [] then Success([])
    else
      match Collect(rs[..|rs| - 1])
      case Failure(e) => Failure(e)
      case Success(vs) =>
        match rs[|rs| - 1]
        case Failure(e) => Failure(e)
        case Success(v) => Success(vs + [v])
  }

  /** Collecting succeeds exactly when every result does, with their values in order. */
  lemma {:induction false} CollectSuccess<T, E>(rs: seq<Result<T, E>>)
    ensures Collect(rs).Success? <==> forall i :: 0 <= i < |rs| ==> rs[i].Success?
    ensures Collect(rs).Success? ==>
      |Collect(rs).value| == |rs| &&
      forall i :: 0 <= i < |rs| ==> rs[i] == Success(Collect(rs).value[i])
    decreases |rs|
  {
    if rs != [] {
      var init := rs[..|rs| - 1];
      assert forall i :: 0 <= i < |init| ==> init[i] == rs[i];
      CollectSuccess(init);
    }
  }

  /** When every result succeeds, collecting gives their values. */
  lemma CollectValues<T, E>(rs: seq<Result<T, E>>, vs: seq<T>)
    requires |rs| == |vs| && forall i :: 0 <= i < |rs| ==> rs[i] == Success(vs[i])
    ensures Collect(rs) == Success(vs)
  {
    CollectSuccess(rs);
    assert Collect(rs).value == vs;
  }

  /** A failed collection reports the error of the first failure. */
  lemma {:induction false} CollectFailure<T, E>(rs: seq<Result<T, E>>)
    requires Collect(rs).Failure?
    ensures exists i :: (0 <= i < |rs| && rs[i] == Failure(Collect(rs).error) &&
      forall j :: 0 <= j < i ==> rs[j].Success?)
    decreases |rs|
  {
    var init := rs[..|rs| - 1];
    assert forall i :: 0 <= i < |init| ==> init[i] == rs[i];
    if Collect(init).Failure? {
      CollectFailure(init);
    } else {
      CollectSuccess(init);
      assert rs[|rs| - 1] == Failure(Collect(rs).error);
    }
  }

  /** Collecting one more result: stop at a failure, or append the value. */
  lemma CollectSnoc<T, E>(rs: seq<Result<T, E>>, i: nat)
    requires i < |rs|
    ensures Collect(rs[..i + 1]) ==
      match Collect(rs[..i])
      case Failure(e) => Failure(e)
      case Success(vs) => (match rs[i] case Failure(e) => Failure(e) case Success(v) => Success(vs + [v]))
  {
    assert rs[..i + 1][..i] == rs[..i];
  }

  /** Once a prefix fails, the whole collection fails with its error. */
  lemma {:induction false} CollectPrefixFailure<T, E>(rs: seq<Result<T, E>>, k: nat)
    requires k <= |rs| && Collect(rs[..k]).Failure?
    ensures Collect(rs) == Collect(rs[..k])
    decreases |rs| - k
  {
    if k < |rs| {
      var init := rs[..|rs| - 1];
      assert init[..k] == rs[..k];
      CollectPrefixFailure(init, k);
    } else {
      assert rs[..k] == rs;
    }
  }

  /** The result of parsing each piece on its own. */
  function EntryResults(pieces: seq<string>, parse: FloatParser): (rs: seq<Result<Entry, HeaderError>>)
    ensures |rs| == |pieces| && forall i :: 0 <= i < |pieces| ==> rs[i] == ParseEntry(pieces[i], parse)
  {
    seq(|pieces|, i requires 0 <= i < |pieces| => ParseEntry(pieces[i], parse))
  }

  /** The entries of all pieces in order, or the error of the first bad piece. */
  function ParseEntries(pieces: seq<string>, parse: FloatParser): (r: Result<seq<Entry>, HeaderError>)
  {
    Collect(EntryResults(pieces, parse))
  }

  /** The entries are ordered by non-increasing weight. */
  predicate Descending(es: seq<Entry>)
  {
    forall i, j :: 0 <= i < j < |es| ==> es[i].weight >= es[j].weight
  }

  /** The entries of weight `w`, in their order. */
  function OfWeight(es: seq<Entry>, w: real): (members: seq<Entry>)
  {
    if es == [] then []
    else (if es[0].weight == w then [es[0]] else []) + OfWeight(es[1..], w)
  }

  /**
   * `r` is `es` stably sorted by descending weight: it is descending, and
   * for every weight the entries of that weight come in the same order as in
   * `es` (which makes `r` a permutation of `es`).
   */
  ghost predicate StablySorted(es: seq<Entry>, r: seq<Entry>)
  {
    Descending(r) && forall w :: OfWeight(r, w) == OfWeight(es, w)
  }

  /** Places `e` after every entry at least as heavy as `e`. */
  function Insert(sorted: seq<Entry>, e: Entry): (inserted: seq<Entry>)
    ensures |inserted| == |sorted| + 1
  {
    if sorted == [] || sorted[0].weight < e.weight then [e] + sorted
    else [sorted[0]] + Insert(sorted[1..], e)
  }

  /**
   * `accepted.sort(reverse=True, key=itemgetter(1))`: Python's sort is
   * stable also with `reverse=True`, so entries of equal weight keep their
   * order. Defined as an insertion sort.
   */
  function SortByWeight(es: seq<Entry>): (sorted: seq<Entry>)
    ensures |sorted| == |es|
    decreases |es|
  {
    if es == [] then []
    else Insert(SortByWeight(es[..|es| - 1]), es[|es| - 1])
  }

  /** Two entries are swapped exactly when the second is strictly heavier. */
  lemma SortTwo(e0: Entry, e1: Entry)
    ensures SortByWeight([e0, e1]) == if e0.weight < e1.weight then [e1, e0] else [e0, e1]
  {
    assert [e0, e1][..1] == [e0] && [e0][..0] == [] && [e0][1..] == [];
    assert SortByWeight([e0]) == [e0];
    assert SortByWeight([e0, e1]) == Insert([e0], e1);
  }

  /** Selecting one weight distributes over concatenation. */
  lemma {:induction false} OfWeightAppend(a: seq<Entry>, b: seq<Entry>, w: real)
    ensures OfWeight(a + b, w) == OfWeight(a, w) + OfWeight(b, w)
    decreases |a|
  {
    if a != [] {
      assert (a + b)[0] == a[0];
      assert (a + b)[1..] == a[1..] + b;
      OfWeightAppend(a[1..], b, w);
      var h := if a[0].weight == w then [a[0]] else [];
      assert h + (OfWeight(a[1..], w) + OfWeight(b, w)) == (h + OfWeight(a[1..], w)) + OfWeight(b, w);
    } else {
      assert a + b == b;
    }
  }

  /** Inserting adds exactly `e` to the entries. */
  lemma {:induction false} InsertMultiset(sorted: seq<Entry>, e: Entry)
    ensures multiset(Insert(sorted, e)) == multiset(sorted) + multiset{e}
    decreases |sorted|
  {
    if !(sorted == [] || sorted[0].weight < e.weight) {
      InsertMultiset(sorted[1..], e);
      assert sorted == [sorted[0]] + sorted[1..];
    }
  }

  /** Inserting into a descending list keeps it descending. */
  lemma {:induction false} InsertDescending(sorted: seq<Entry>, e: Entry)
    requires Descending(sorted)
    ensures Descending(Insert(sorted, e))
    decreases |sorted|
  {
    if sorted == [] || sorted[0].weight < e.weight {
      var r := [e] + sorted;
      forall i, j | 0 <= i < j < |r| ensures r[i].weight >= r[j].weight {
        if i > 0 {
          assert r[i] == sorted[i - 1] && r[j] == sorted[j - 1];
        } else {
          assert r[j] == sorted[j - 1];
        }
      }
    } else {
      var rest := sorted[1..];
      var tail := Insert(rest, e);
      InsertDescending(rest, e);
      var r := [sorted[0]] + tail;
      assert Insert(sorted, e) == r;
      assert sorted[0].weight >= tail[0].weight by {
        if !(rest == [] || rest[0].weight < e.weight) {
          assert tail[0] == rest[0] && rest[0] == sorted[1];
        }
      }
      forall i, j | 0 <= i < j < |r| ensures r[i].weight >= r[j].weight {
        assert r[j] == tail[j - 1];
        if i > 0 {
          assert r[i] == tail[i - 1];
        } else if j > 1 {
          assert tail[0].weight >= tail[j - 1].weight;
        }
      }
    }
  }

  /** Inserting puts `e` after every entry of its own weight, as appending would. */
  lemma {:induction false} InsertOfWeight(sorted: seq<Entry>, e: Entry, w: real)
    requires Descending(sorted)
    ensures OfWeight(Insert(sorted, e), w) == OfWeight(sorted + [e], w)
    decreases |sorted|
  {
    if sorted == [] || sorted[0].weight < e.weight {
      OfWeightAppend(sorted, [e], w);
      OfWeightAppend([e], sorted, w);
      if sorted != [] && e.weight == w {
        NoneOfWeight(sorted, w);
      }
    } else {
      var rest := sorted[1..];
      var head := [sorted[0]];
      DescendingTail(sorted);
      InsertOfWeight(rest, e, w);
      calc {
        OfWeight(Insert(sorted, e), w);
        OfWeight(head + Insert(rest, e), w);
        { OfWeightAppend(head, Insert(rest, e), w); }
        OfWeight(head, w) + OfWeight(Insert(rest, e), w);
        OfWeight(head, w) + OfWeight(rest + [e], w);
        { OfWeightAppend(head, rest + [e], w); }
        OfWeight(head + (rest + [e]), w);
        { SnocAfterHead(sorted, e); }
        OfWeight(sorted + [e], w);
      }
    }
  }

  /** Appending after the tail is appending to the whole list. */
  lemma SnocAfterHead(s: seq<Entry>, e: Entry)
    requires s != []
    ensures [s[0]] + (s[1..] + [e]) == s + [e]
  {
    assert s == [s[0]] + s[1..];
  }

  /** Dropping the head of a descending list leaves it descending. */
  lemma DescendingTail(sorted: seq<Entry>)
    requires Descending(sorted) && sorted != []
    ensures Descending(sorted[1..])
  {
    var rest := sorted[1..];
    forall i, j | 0 <= i < j < |rest| ensures rest[i].weight >= rest[j].weight {
      assert rest[i] == sorted[i + 1] && rest[j] == sorted[j + 1];
    }
  }

  /** No entry of a descending list below a lighter head has the heavier weight. */
  lemma {:induction false} NoneOfWeight(sorted: seq<Entry>, w: real)
    requires Descending(sorted) && sorted != [] && sorted[0].weight < w
    ensures OfWeight(sorted, w) == []
    decreases |sorted|
  {
    if |sorted| > 1 {
      NoneOfWeight(sorted[1..], w);
    }
  }

  /** The sort is a stable sort by descending weight, and a permutation. */
  lemma {:induction false} SortByWeightStable(es: seq<Entry>)
    ensures StablySorted(es, SortByWeight(es))
    ensures multiset(SortByWeight(es)) == multiset(es)
    decreases |es|
  {
    if es != [] {
      var init, last := es[..|es| - 1], es[|es| - 1];
      assert es == init + [last];
      SortByWeightStable(init);
      var s := SortByWeight(init);
      InsertDescending(s, last);
      InsertMultiset(s, last);
      forall w ensures OfWeight(SortByWeight(es), w) == OfWeight(es, w) {
        InsertOfWeight(s, last, w);
        OfWeightAppend(s, [last], w);
        OfWeightAppend(init, [last], w);
      }
    }
  }

  /** The entries of weight `w` come from `s`, and there is one when `s` holds such an entry. */
  lemma {:induction false} OfWeightMembers(s: seq<Entry>, w: real)
    ensures forall y :: y in OfWeight(s, w) ==> y in s && y.weight == w
    ensures forall i :: 0 <= i < |s| && s[i].weight == w ==> OfWeight(s, w) != []
    decreases |s|
  {
    if s != [] {
      OfWeightMembers(s[1..], w);
      assert forall i :: 1 <= i < |s| ==> s[i] == s[1..][i - 1];
    }
  }

  /**
   * The stable sort is unique: two descending lists with the same entries of
   * each weight, in the same order, are equal.
   */
  lemma {:induction false} StablySortedUnique(es: seq<Entry>, r1: seq<Entry>, r2: seq<Entry>)
    requires StablySorted(es, r1) && StablySorted(es, r2)
    ensures r1 == r2
  {
    SameClassesEqual(r1, r2);
  }

  /** Two descending lists with the same entries of each weight, in order, are equal. */
  lemma {:induction false} SameClassesEqual(a: seq<Entry>, b: seq<Entry>)
    requires Descending(a) && Descending(b)
    requires forall w :: OfWeight(a, w) == OfWeight(b, w)
    ensures a == b
    decreases |a|
  {
    if a == [] || b == [] {
      if a != [] {
        OfWeightMembers(a, a[0].weight);
      } else if b != [] {
        OfWeightMembers(b, b[0].weight);
      }
    } else {
      var m1, m2 := a[0].weight, b[0].weight;
      OfWeightMembers(a, m1);
      OfWeightMembers(b, m1);
      OfWeightMembers(a, m2);
      OfWeightMembers(b, m2);
      var y1 := OfWeight(b, m1)[0];
      assert y1 in OfWeight(b, m1);
      assert y1 in b && y1.weight == m1;
      var y2 := OfWeight(a, m2)[0];
      assert y2 in OfWeight(a, m2);
      assert y2 in a && y2.weight == m2;
      assert m1 == m2;
      assert a[0] == OfWeight(a, m1)[0] == OfWeight(b, m1)[0] == b[0];
      forall w ensures OfWeight(a[1..], w) == OfWeight(b[1..], w) {
        assert OfWeight(a, w) == (if m1 == w then [a[0]] else []) + OfWeight(a[1..], w);
        assert OfWeight(b, w) == (if m1 == w then [b[0]] else []) + OfWeight(b[1..], w);
        var h: seq<Entry> := if m1 == w then [a[0]] else [];
        assert OfWeight(a, w) == OfWeight(b, w);
        assert (h + OfWeight(a[1..], w))[|h|..] == OfWeight(a[1..], w);
        assert (h + OfWeight(b[1..], w))[|h|..] == OfWeight(b[1..], w);
      }
      SameClassesEqual(a[1..], b[1..]);
      assert a == [a[0]] + a[1..] && b == [b[0]] + b[1..];
    }
  }

  /** The tags of the entries, in order. */
  function Tags(es: seq<Entry>): (tags: seq<string>)
    ensures |tags| == |es| && forall i :: 0 <= i < |es| ==> tags[i] == es[i].tag
  {
    seq(|es|, i requires 0 <= i < |es| => es[i].tag)
  }

  /**
   * What `http_accept_header` returns for the header value: no tags when
   * the header is absent or empty, otherwise the tags of the entries stably
   * sorted by descending weight.
   */
  function AcceptedTags(header: Option<string>, parse: FloatParser): (r: Result<seq<string>, HeaderError>)
    ensures r.Failure? ==> header.Some? && header.value != ""
  {
    if header.None? || header.value == "" then Success([])
    else match ParseEntries(Split(header.value, ','), parse)
      case Failure(e) => Failure(e)
      case Success(es) => Success(Tags(SortByWeight(es)))
  }

  /** Unfolds `AcceptedTags` for a non-empty header whose pieces parse. */
  lemma AcceptedTagsOf(h: string, es: seq<Entry>, parse: FloatParser)
    requires h != "" && ParseEntries(Split(h, ','), parse) == Success(es)
    ensures AcceptedTags(Some(h), parse) == Success(Tags(SortByWeight(es)))
  {
  }

  /** An absent or empty header gives no tags. */
  lemma AcceptedTagsEmpty(header: Option<string>, parse: FloatParser)
    requires header.None? || header == Some("")
    ensures AcceptedTags(header, parse) == Success([])
  {
  }

  /** The first ';'-field of every piece, as written. */
  function FirstFields(pieces: seq<string>): (tags: seq<string>)
    ensures |tags| == |pieces| && forall i :: 0 <= i < |pieces| ==> tags[i] == Split(pieces[i], ';')[0]
  {
    seq(|pieces|, i requires 0 <= i < |pieces| => Split(pieces[i], ';')[0])
  }

  /** The tags of a concatenation are the concatenated tags. */
  lemma TagsConcat(a: seq<Entry>, b: seq<Entry>)
    ensures Tags(a + b) == Tags(a) + Tags(b)
  {
  }

  /** Inserting an entry adds exactly its tag to the tags. */
  lemma {:induction false} TagsInsert(sorted: seq<Entry>, e: Entry)
    ensures multiset(Tags(Insert(sorted, e))) == multiset(Tags(sorted)) + multiset{e.tag}
    decreases |sorted|
  {
    if sorted == [] || sorted[0].weight < e.weight {
      TagsConcat([e], sorted);
    } else {
      var first := [sorted[0]];
      var rest := sorted[1..];
      var tail := Insert(rest, e);
      TagsInsert(rest, e);
      assert sorted == first + rest;
      assert Insert(sorted, e) == first + tail;
      TagsConcat(first, rest);
      TagsConcat(first, tail);
    }
  }

  /** Sorting only reorders the tags. */
  lemma {:induction false} TagsSortByWeight(es: seq<Entry>)
    ensures multiset(Tags(SortByWeight(es))) == multiset(Tags(es))
    decreases |es|
  {
    if es != [] {
      var init, last := es[..|es| - 1], es[|es| - 1];
      assert es == init + [last];
      TagsSortByWeight(init);
      TagsInsert(SortByWeight(init), last);
      TagsConcat(init, [last]);
    }
  }

  /**
   * A non-empty header that parses gives one tag per comma-separated piece:
   * one more than there are commas.
   */
  lemma AcceptedTagsLength(h: string, parse: FloatParser)
    requires h != "" && AcceptedTags(Some(h), parse).Success?
    ensures |AcceptedTags(Some(h), parse).value| == Count(h, ',') + 1
  {
    var pieces := Split(h, ',');
    var rs := EntryResults(pieces, parse);
    CollectSuccess(rs);
    var es := Collect(rs).value;
    assert AcceptedTags(Some(h), parse) == Success(Tags(SortByWeight(es)));
    SortByWeightStable(es);
    assert |SortByWeight(es)| == |es| by {
      assert |multiset(SortByWeight(es))| == |multiset(es)|;
    }
    SplitLength(h, ',');
  }

  /**
   * The tags are a permutation of the first ';'-fields of the pieces, kept
   * verbatim.
   */
  lemma AcceptedTagsPermutation(h: string, parse: FloatParser)
    requires h != "" && AcceptedTags(Some(h), parse).Success?
    ensures multiset(AcceptedTags(Some(h), parse).value) == multiset(FirstFields(Split(h, ',')))
  {
    var pieces := Split(h, ',');
    var rs := EntryResults(pieces, parse);
    CollectSuccess(rs);
    var es := Collect(rs).value;
    assert AcceptedTags(Some(h), parse) == Success(Tags(SortByWeight(es)));
    forall i | 0 <= i < |pieces| ensures es[i].tag == Split(pieces[i], ';')[0] {
      ParseEntrySpec(pieces[i], parse);
    }
    assert Tags(es) == FirstFields(pieces);
    TagsSortByWeight(es);
  }

  /**
   * The tags are those of the pieces' entries stably sorted by descending
   * weight: heavier entries first, entries of equal weight in header order.
   */
  lemma AcceptedTagsOrder(h: string, parse: FloatParser, es: seq<Entry>)
    requires h != "" && ParseEntries(Split(h, ','), parse) == Success(es)
    ensures |es| == |Split(h, ',')| && forall i :: 0 <= i < |es| ==> ParseEntry(Split(h, ',')[i], parse) == Success(es[i])
    ensures exists sorted :: StablySorted(es, sorted)
    ensures forall sorted :: StablySorted(es, sorted) ==>
      AcceptedTags(Some(h), parse) == Success(Tags(sorted))
  {
    CollectSuccess(EntryResults(Split(h, ','), parse));
    SortByWeightStable(es);
    forall sorted | StablySorted(es, sorted)
      ensures AcceptedTags(Some(h), parse) == Success(Tags(sorted))
    {
      StablySortedUnique(es, sorted, SortByWeight(es));
    }
  }

  /**
   * A non-empty header fails exactly when some piece has a parameter without
   * '='; the error names the first such parameter of the first such piece.
   */
  lemma AcceptedTagsFailure(h: string, parse: FloatParser)
    requires h != ""
    ensures AcceptedTags(Some(h), parse).Failure? <==>
      exists i, k :: 0 <= i < |Split(h, ',')| && 0 <= k < |Params(Split(h, ',')[i])| &&
        '=' !in Params(Split(h, ',')[i])[k]
    ensures AcceptedTags(Some(h), parse).Failure? ==>
      exists i :: 0 <= i < |Split(h, ',')| &&
        ParseEntry(Split(h, ',')[i], parse) == Failure(AcceptedTags(Some(h), parse).error) &&
        forall j :: 0 <= j < i ==> ParseEntry(Split(h, ',')[j], parse).Success?
  {
    var pieces := Split(h, ',');
    var rs := EntryResults(pieces, parse);
    var r := AcceptedTags(Some(h), parse);
    assert r.Failure? <==> Collect(rs).Failure?;
    CollectSuccess(rs);
    if Collect(rs).Failure? {
      assert r.error == Collect(rs).error;
      CollectFailure(rs);
      var i :| 0 <= i < |rs| && rs[i] == Failure(Collect(rs).error) &&
        forall j :: 0 <= j < i ==> rs[j].Success?;
      assert ParseEntry(pieces[i], parse) == Failure(r.error);
      ParseEntrySpec(pieces[i], parse);
      forall j | 0 <= j < i ensures ParseEntry(pieces[j], parse).Success? {
        assert rs[j].Success?;
      }
    } else {
      forall i, k | 0 <= i < |pieces| && 0 <= k < |Params(pieces[i])|
        ensures '=' in Params(pieces[i])[k]
      {
        assert rs[i].Success?;
        ParseEntrySpec(pieces[i], parse);
      }
    }
  }


  /**
   * `http_accept_header`: one entry per comma-separated piece, appended in a
   * loop, then sorted in place by descending weight.
   */
  method HttpAcceptHeader(header: Option<string>, parse: FloatParser)
    returns (r: Result<seq<string>, HeaderError>)
    ensures r == AcceptedTags(header, parse)
  {
    var accepted: seq<Entry> := [];
    if header.None? || header.value == "" {
      return Success([]);
    }
    var pieces := Split(header.value, ',');
    ghost var rs := EntryResults(pieces, parse);
    for i := 0 to |pieces|
      invariant Collect(rs[..i]) == Success(accepted)
    {
      var lq := Split(pieces[i], ';');
      var attrs;
      match Pairs(lq[1..]) {
        case Failure(e) =>
          assert rs[i] == Failure(e) by {
            assert rs[i] == ParseEntry(pieces[i], parse);
          }
          CollectSnoc(rs, i);
          CollectPrefixFailure(rs, i + 1);
          return Failure(e);
        case Success(pairs) =>
          attrs := Dict(pairs);
      }
      var q := Weight(attrs, parse);
      assert rs[i] == Success(Entry(lq[0], q)) by {
        assert rs[i] == ParseEntry(pieces[i], parse);
      }
      CollectSnoc(rs, i);
      accepted := accepted + [Entry(lq[0], q)];
    }
    assert rs[..|pieces|] == rs;
    accepted := SortByWeight(accepted);
    r := Success(Tags(accepted));
  }
}
