/**
 * The handler of `GET /<n>` without the page template: negotiate the
 * language from the Accept-Language value, take that language's theses and
 * compute the page context.
 */
module Cluetrain {
  import opened Wrappers
  import opened AcceptLanguage
  import opened Negotiation
  import opened Navigation

  /** Why the handler raises instead of producing a page. */
  datatype HandlerError =
    | BadHeader(cause: HeaderError)    // a parameter without '=' in the header
    | MissingTheses(lang: string)      // the chosen language has no theses

  /**
   * The thesis page for index `n`: the context for the negotiated
   * language's theses, or the error that aborts the request.
   */
  method Thesis(n: int, header: Option<string>, parse: FloatParser,
                theses: map<string, seq<string>>, languages: set<string>)
    returns (r: Result<Context, HandlerError>)
    ensures Negotiate(header, parse, languages).Failure? ==>
      r == Failure(BadHeader(Negotiate(header, parse, languages).error))
    ensures Negotiate(header, parse, languages).Success? ==>
      var lang := Negotiate(header, parse, languages).value;
      r == if lang in theses then Success(Nav(n, theses[lang])) else Failure(MissingTheses(lang))
    ensures languages <= theses.Keys && Fallback in theses && r.Failure? ==> r.error.BadHeader?
  {
    var accepted := HttpAcceptHeader(header, parse);
    if accepted.Failure? {
      return Failure(BadHeader(accepted.error));
    }
    var lang := ChooseLanguage(accepted.value, languages);
    if lang !in theses {
      return Failure(MissingTheses(lang));
    }
    var th := theses[lang];
    r := Success(Nav(n, th));
  }
}
