/**
 * `loadFooter`: `footer.html` is fetched and, on success, replaces the
 * contents of `#footer-container`; then the newsletter form and the scroll
 * reveal are bound again, in that order. The fetch is an input here.
 */
module Footer {
  import opened Wrappers
  import opened Reveal

  /** What `fetch('footer.html')` settles to: a transport failure, or a
      response with its status and body text. */
  datatype FetchResult = TransportError | Response(status: int, body: string)

  /** `res.ok`: the status is in the range 200-299. */
  predicate Succeeds(fetch: FetchResult) {
    fetch.Response? && 200 <= fetch.status <= 299
  }

  /** The two initialisers that the success path calls again. */
  datatype Rebind = RebindForm | RebindReveal

  class Page {
    /** The markup of `#footer-container`; `None` when the page has none. */
    var footer: Option<string>
    /** Initialiser calls made so far, oldest first. */
    var rebinds: seq<Rebind>
    /** Whether the newsletter form inside the injected footer has its
        `submit` listener. */
    var footerFormBound: bool
    /** The page's reveal targets and their observer. */
    const targets: ScrollReveal

    constructor (footer: Option<string>, targets: ScrollReveal)
      ensures this.footer == footer && this.targets == targets
      ensures rebinds == [] && !footerFormBound
    {
      this.footer := footer;
      this.targets := targets;
      rebinds := [];
      footerFormBound := false;
    }

    /** `loadFooter()` once `fetch` has settled. `hasForm` says whether the
        injected markup holds the form and its input; `hasObserver` whether
        `IntersectionObserver` exists.

        Without a container, or when the fetch fails or its response is not
        `ok`, nothing on the page changes. Otherwise the body becomes the
        container's markup, the injected form is bound when present, and the
        scroll reveal runs again: every target is hidden and observed
        anew, or, without an observer, revealed. */
    method LoadFooter(fetch: FetchResult, hasForm: bool, hasObserver: bool)
      modifies this, targets, targets.revealed
      ensures old(footer).None? || !Succeeds(fetch) ==>
        unchanged(this) && unchanged(targets) && unchanged(targets.revealed)
      ensures old(footer).Some? && Succeeds(fetch) ==>
        && footer == Some(fetch.body)
        && footerFormBound == hasForm
        && rebinds == old(rebinds) + [RebindForm, RebindReveal]
        && targets.Valid()
        && (hasObserver ==> forall t :: 0 <= t < targets.revealed.Length ==>
              !targets.revealed[t] && t in targets.observed)
        && (!hasObserver ==> targets.observed == {} && forall t :: 0 <= t < targets.revealed.Length ==>
              targets.revealed[t])
    {
      if footer.None? {
        return;
      }
      if !Succeeds(fetch) {
        return;
      }
      footer := Some(fetch.body);
      rebinds := rebinds + [RebindForm];
      footerFormBound := hasForm;
      rebinds := rebinds + [RebindReveal];
      targets.Bind(hasObserver);
    }
  }

  /** The 200 response with the body `<p>hi</p>` becomes the container's
      markup and both initialisers run; a 404 changes nothing. */
  method LoadFooterExample(targets: ScrollReveal) returns (page: Page, other: Page)
    modifies targets, targets.revealed
    ensures page.footer == Some("<p>hi</p>") && page.footerFormBound
    ensures page.rebinds == [RebindForm, RebindReveal]
    ensures other.footer == Some("old") && !other.footerFormBound && other.rebinds == []
  {
    page := new Page(Some(""), targets);
    page.LoadFooter(Response(200, "<p>hi</p>"), true, true);
    other := new Page(Some("old"), targets);
    other.LoadFooter(Response(404, "Not Found"), true, true);
  }
}
