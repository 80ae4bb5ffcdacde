/**
 * The language choice of the thesis page: walk the preferred tags in
 * order, cut each to its first two characters, and take the first that is
 * a supported language; when none is, use English (a `for … else` loop).
 */
module Negotiation {
  import opened Wrappers
  import opened PyStr
  import opened AcceptLanguage

  /** The language used when no preferred tag is supported. */
  const Fallback: string := "en"

  /** The part of a tag that is compared with the supported languages: `tag[:2]`. */
  function Primary(tag: string): (primary: string)
    ensures primary <= tag && |primary| == (if |tag| < 2 then |tag| else 2)
  {
    Take(tag, 2)
  }

  /** No tag of `tags` names a supported language. */
  predicate NoneSupported(tags: seq<string>, languages: set<string>)
  {
    forall i :: 0 <= i < |tags| ==> Primary(tags[i]) !in languages
  }

  /**
   * The language the loop settles on: the primary part of the first tag
   * that is supported, or the fallback when there is none.
   */
  function Chosen(tags: seq<string>, languages: set<string>): (lang: string)
    ensures lang in languages || lang == Fallback
    ensures NoneSupported(tags, languages) ==> lang == Fallback
    ensures forall i :: (0 <= i < |tags| && Primary(tags[i]) in languages &&
      NoneSupported(tags[..i], languages)) ==> lang == Primary(tags[i])
    decreases |tags|
  {
    if tags == [] then Fallback
    else if Primary(tags[0]) in languages then Primary(tags[0])
    else
      assert forall i :: 1 <= i < |tags| ==> tags[1..][i - 1] == tags[i] && tags[1..][..i - 1] == tags[1..i];
      assert forall i :: 1 <= i < |tags| && NoneSupported(tags[..i], languages) ==>
        NoneSupported(tags[1..i], languages);
      Chosen(tags[1..], languages)
  }

  /** The loop over the sorted tags, leaving it at the first supported one. */
  method ChooseLanguage(tags: seq<string>, languages: set<string>) returns (lang: string)
    ensures lang == Chosen(tags, languages)
  {
    var i := 0;
    while i < |tags|
      invariant 0 <= i <= |tags|
      invariant Chosen(tags[i..], languages) == Chosen(tags, languages)
    {
      lang := Primary(tags[i]);
      if lang in languages {
        break;
      }
      assert tags[i..][1..] == tags[i + 1..];
      i := i + 1;
    }
    if i == |tags| {
      lang := Fallback;
    }
  }

  /**
   * The language a request with this Accept-Language value is served in,
   * or the error that makes the header unreadable.
   */
  function Negotiate(header: Option<string>, parse: FloatParser, languages: set<string>): (r: Result<string, HeaderError>)
    ensures r.Success? ==> r.value in languages || r.value == Fallback
    ensures r.Success? <==> AcceptedTags(header, parse).Success?
  {
    match AcceptedTags(header, parse)
    case Failure(e) => Failure(e)
    case Success(tags) => Success(Chosen(tags, languages))
  }

  /** Without the header the page is in English. */
  lemma NegotiateAbsent(parse: FloatParser, languages: set<string>)
    ensures Negotiate(None, parse, languages) == Success(Fallback)
  {
  }

  /** A piece `tag;q=v` gives the tag with the weight read from `v`. */
  lemma EntryWithQ(tag: string, q: string, parse: FloatParser)
    requires ';' !in tag && ';' !in q
    ensures ParseEntry(tag + ";q=" + q, parse) == Success(Entry(tag, QValue(q, parse)))
  {
    var piece := tag + ";q=" + q;
    assert piece == Join([tag, "q=" + q], ';');
    SplitJoin([tag, "q=" + q], ';');
    assert Params(piece) == ["q=" + q];
    ParseEntrySpec(piece, parse);
    WeightLastQ(piece, parse, 0);
  }

  /** A piece without parameters gives its tag with weight 1.0. */
  lemma EntryPlain(tag: string, parse: FloatParser)
    requires ',' !in tag && ';' !in tag
    ensures ParseEntry(tag, parse) == Success(Entry(tag, 1.0))
  {
    assert tag == Join([tag], ';');
    SplitJoin([tag], ';');
    ParseEntrySpec(tag, parse);
    WeightDefault(tag, parse);
  }

  /** The tags a header of two pieces gives, from the entries of its pieces. */
  lemma TwoPieces(h: string, p0: string, p1: string, e0: Entry, e1: Entry, parse: FloatParser)
    requires h == p0 + "," + p1 && ',' !in p0 && ',' !in p1
    requires ParseEntry(p0, parse) == Success(e0) && ParseEntry(p1, parse) == Success(e1)
    ensures AcceptedTags(Some(h), parse) ==
      Success(if e0.weight < e1.weight then [e1.tag, e0.tag] else [e0.tag, e1.tag])
  {
    SplitTwo(h, p0, p1, ',');
    var es := [e0, e1];
    CollectValues(EntryResults([p0, p1], parse), es);
    AcceptedTagsOf(h, es, parse);
    SortTwo(e0, e1);
    var sorted := SortByWeight(es);
    assert Tags(sorted) == [sorted[0].tag, sorted[1].tag];
  }

  /** A tag fit to stand in a header on its own. */
  predicate PlainTag(tag: string)
  {
    ',' !in tag && ';' !in tag
  }

  /**
   * Weights decide, not the order of writing: of two weighted tags the
   * heavier one is chosen when it is supported, even when written second.
   */
  lemma HeavierPreferred(t0: string, q0: string, t1: string, q1: string, parse: FloatParser, languages: set<string>)
    requires PlainTag(t0) && PlainTag(t1) && ',' !in q0 && ';' !in q0 && ',' !in q1 && ';' !in q1
    requires QValue(q0, parse) < QValue(q1, parse) && Primary(t1) in languages
    ensures Negotiate(Some(t0 + ";q=" + q0 + "," + t1 + ";q=" + q1), parse, languages) == Success(Primary(t1))
  {
    var p0, p1 := t0 + ";q=" + q0, t1 + ";q=" + q1;
    assert t0 + ";q=" + q0 + "," + t1 + ";q=" + q1 == p0 + "," + p1;
    EntryWithQ(t0, q0, parse);
    EntryWithQ(t1, q1, parse);
    TwoPieces(p0 + "," + p1, p0, p1, Entry(t0, QValue(q0, parse)), Entry(t1, QValue(q1, parse)), parse);
  }

  /**
   * An unsupported first choice is passed over for a supported second one,
   * whatever their weights.
   */
  lemma UnsupportedSkipped(t0: string, t1: string, q1: string, parse: FloatParser, languages: set<string>)
    requires PlainTag(t0) && PlainTag(t1) && ',' !in q1 && ';' !in q1
    requires Primary(t0) !in languages && Primary(t1) in languages
    ensures Negotiate(Some(t0 + "," + t1 + ";q=" + q1), parse, languages) == Success(Primary(t1))
  {
    var p1 := t1 + ";q=" + q1;
    var h := t0 + "," + p1;
    assert t0 + "," + t1 + ";q=" + q1 == h;
    var w1 := QValue(q1, parse);
    var tags := if 1.0 < w1 then [t1, t0] else [t0, t1];
    assert AcceptedTags(Some(h), parse) == Success(tags) by {
      EntryPlain(t0, parse);
      EntryWithQ(t1, q1, parse);
      TwoPieces(h, t0, p1, Entry(t0, 1.0), Entry(t1, w1), parse);
    }
    assert Chosen(tags, languages) == Primary(t1) by {
      SecondChosen(t0, t1, languages);
    }
  }

  /** Of two tags whose first is unsupported, the supported second is chosen in either order. */
  lemma SecondChosen(t0: string, t1: string, languages: set<string>)
    requires Primary(t0) !in languages && Primary(t1) in languages
    ensures Chosen([t0, t1], languages) == Primary(t1) && Chosen([t1, t0], languages) == Primary(t1)
  {
    assert [t0, t1][1..] == [t1];
  }

  /** A tag whose first two characters are unsupported falls back to English. */
  lemma ExampleFallback(h: string, parse: FloatParser)
    requires h == "xx-XX"
    ensures Negotiate(Some(h), parse, {"en"}) == Success(Fallback)
  {
    assert AcceptedTags(Some(h), parse) == Success([h]) by {
      assert h == Join([h], ',');
      SplitJoin([h], ',');
      EntryPlain(h, parse);
      var e := Entry(h, 1.0);
      CollectValues(EntryResults([h], parse), [e]);
      assert [e][..0] == [];
      assert SortByWeight([e]) == [e];
      assert Tags([e]) == [h];
    }
    assert Primary(h) == "xx";
  }

  /**
   * Tags are not trimmed: after ", " the second tag keeps its leading
   * space, so its first two characters are a space and a letter.
   */
  lemma SpaceKept(t0: string, t1: string, parse: FloatParser)
    requires ',' !in t0 && ';' !in t0 && ',' !in t1 && ';' !in t1
    ensures AcceptedTags(Some(t0 + ", " + t1), parse) == Success([t0, " " + t1])
  {
    var p1 := " " + t1;
    assert t0 + ", " + t1 == t0 + "," + p1;
    EntryPlain(t0, parse);
    EntryPlain(p1, parse);
    TwoPieces(t0 + "," + p1, t0, p1, Entry(t0, 1.0), Entry(p1, 1.0), parse);
  }

  /**
   * A parameter without '=' makes the whole header unreadable, even after
   * a well-formed piece; the error names that parameter.
   */
  lemma MalformedParameterFails(t0: string, t1: string, x: string, parse: FloatParser, languages: set<string>)
    requires ',' !in t0 && ';' !in t0 && PlainTag(t1) && PlainTag(x) && '=' !in x
    ensures Negotiate(Some(t0 + "," + t1 + ";" + x), parse, languages) == Failure(MalformedParameter(x))
  {
    var p1 := t1 + ";" + x;
    var h := t0 + "," + p1;
    assert t0 + "," + t1 + ";" + x == h;
    SplitTwo(h, t0, p1, ',');
    assert ParseEntry(p1, parse) == Failure(MalformedParameter(x)) by {
      SplitTwo(p1, t1, x, ';');
      assert Params(p1) == [x];
    }
    var rs := EntryResults([t0, p1], parse);
    assert Collect(rs[..1]) == Success([Entry(t0, 1.0)]) by {
      EntryPlain(t0, parse);
      assert rs[..1] == [Success(Entry(t0, 1.0))];
      CollectValues(rs[..1], [Entry(t0, 1.0)]);
    }
    CollectSnoc(rs, 1);
    assert rs[..2] == rs;
  }
}
