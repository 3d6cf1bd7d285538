/**
 * Configuration resolution of the text scanner: defaults, the derivation of an
 * integer overlap from an absolute count or a fraction of the page, and the
 * check that the overlap is smaller than the page.
 */
module ScannerConfig {
  import opened Wrappers

  const DefaultEncoding: string := "utf-8"
  const DefaultTokensPerPage: int := 512
  const DefaultModel: string := "text-embedding-3-small"
  const DefaultOverlap: real := 0.5

  /** What a caller may pass; every field may be left unset. */
  datatype Config = Config(
    encoding: Option<string>,
    tokensPerPage: Option<int>,
    model: Option<string>,
    overlap: Option<real>)

  /** The configuration used when no configuration object is passed at all. */
  const DefaultConfig: Config :=
    Config(Some(DefaultEncoding), Some(DefaultTokensPerPage), Some(DefaultModel), Some(DefaultOverlap))

  /** The settings a constructed scanner holds. */
  datatype Scanner = Scanner(encoding: string, tokensPerPage: int, model: string, overlap: int) {
    /** The distance between the first tokens of two consecutive windows. */
    function Stride(): int {
      tokensPerPage - overlap
    }

    /** What every constructed scanner satisfies (see ResolvedScannerIsValid). */
    predicate Valid() {
      0 < tokensPerPage && overlap < tokensPerPage
    }
  }

  datatype ConfigError = OverlapNotLessThanTokensPerPage

  /**
   * The integer overlap: an overlap of at least one is an absolute token count
   * and is rounded down; a smaller one is a fraction of the page, and the
   * product is rounded down.
   */
  function ResolveOverlap(tokensPerPage: int, overlap: real): (r: int)
    ensures overlap >= 1.0 ==> r as real <= overlap < r as real + 1.0
    ensures overlap < 1.0 ==>
      r as real <= tokensPerPage as real * overlap < r as real + 1.0
  {
    if overlap >= 1.0 then overlap.Floor else (tokensPerPage as real * overlap).Floor
  }

  /** The constructor: apply the defaults, derive the overlap, check it. */
  function Resolve(config: Config): (r: Result<Scanner, ConfigError>)
    ensures r.Success? <==>
      ResolveOverlap(config.tokensPerPage.GetOr(DefaultTokensPerPage),
                     config.overlap.GetOr(DefaultOverlap))
      < config.tokensPerPage.GetOr(DefaultTokensPerPage)
    ensures r.Success? ==>
      && r.value.encoding == config.encoding.GetOr(DefaultEncoding)
      && r.value.tokensPerPage == config.tokensPerPage.GetOr(DefaultTokensPerPage)
      && r.value.model == config.model.GetOr(DefaultModel)
      && r.value.overlap == ResolveOverlap(r.value.tokensPerPage, config.overlap.GetOr(DefaultOverlap))
  {
    var tokensPerPage := config.tokensPerPage.GetOr(DefaultTokensPerPage);
    var overlap := ResolveOverlap(tokensPerPage, config.overlap.GetOr(DefaultOverlap));
    if overlap < tokensPerPage then
      Success(Scanner(config.encoding.GetOr(DefaultEncoding), tokensPerPage,
                      config.model.GetOr(DefaultModel), overlap))
    else
      Failure(OverlapNotLessThanTokensPerPage)
  }

  /**
   * A page of zero or fewer tokens never survives the check: a fraction below
   * one times a non-positive page is at least the page, and an absolute
   * overlap is at least one.
   */
  lemma PageNotPositiveIsRejected(tokensPerPage: int, overlap: real)
    requires tokensPerPage <= 0
    ensures ResolveOverlap(tokensPerPage, overlap) >= tokensPerPage
  {
    if overlap < 1.0 {
      var p := tokensPerPage as real;
      assert p * overlap - p == p * (overlap - 1.0);
      assert p * (overlap - 1.0) >= 0.0 by {
        assert -p >= 0.0 && 1.0 - overlap > 0.0;
        assert (-p) * (1.0 - overlap) >= 0.0;
      }
      assert p <= p * overlap;
      assert (p * overlap).Floor >= p.Floor;
    }
  }

  /**
   * Every scanner the constructor returns has a positive page and a
   * positive stride, so the windowing loop advances.
   */
  lemma ResolvedScannerIsValid(config: Config)
    requires Resolve(config).Success?
    ensures Resolve(config).value.Valid()
    ensures 0 < Resolve(config).value.Stride()
  {
    var tokensPerPage := config.tokensPerPage.GetOr(DefaultTokensPerPage);
    if tokensPerPage <= 0 {
      PageNotPositiveIsRejected(tokensPerPage, config.overlap.GetOr(DefaultOverlap));
    }
  }

  /** A fraction in [0, 1) of a positive page always yields a scanner whose overlap is in [0, page). */
  lemma FractionalOverlapIsAccepted(config: Config)
    requires config.tokensPerPage.GetOr(DefaultTokensPerPage) > 0
    requires 0.0 <= config.overlap.GetOr(DefaultOverlap) < 1.0
    ensures Resolve(config).Success?
    ensures 0 <= Resolve(config).value.overlap < Resolve(config).value.tokensPerPage
  {
    var p := config.tokensPerPage.GetOr(DefaultTokensPerPage) as real;
    var f := config.overlap.GetOr(DefaultOverlap);
    assert 0.0 <= p * f by {
      assert p >= 0.0 && f >= 0.0;
    }
    assert p * f < p by {
      assert p - p * f == p * (1.0 - f);
      assert p * (1.0 - f) > 0.0;
    }
    var tokensPerPage := config.tokensPerPage.GetOr(DefaultTokensPerPage);
    var o := ResolveOverlap(tokensPerPage, f);
    assert o as real <= p * f < o as real + 1.0;
    assert 0 <= o && o < tokensPerPage;
  }

  /** An absolute overlap is accepted exactly when its floor is below the page. */
  lemma AbsoluteOverlapCheck(config: Config)
    requires config.overlap.GetOr(DefaultOverlap) >= 1.0
    ensures Resolve(config).Success? <==>
      config.overlap.GetOr(DefaultOverlap).Floor < config.tokensPerPage.GetOr(DefaultTokensPerPage)
    ensures Resolve(config).Success? ==>
      Resolve(config).value.overlap == config.overlap.GetOr(DefaultOverlap).Floor >= 1
  {
  }

  /**
   * Leaving every field unset and passing no configuration at all give the
   * same scanner: 512 tokens per page and an overlap of 256 (half a page).
   */
  lemma DefaultsResolve()
    ensures Resolve(Config(None, None, None, None)) == Resolve(DefaultConfig)
    ensures Resolve(DefaultConfig) == Success(Scanner("utf-8", 512, "text-embedding-3-small", 256))
    ensures Resolve(DefaultConfig).value.Stride() == 256
  {
    assert (512 as real * 0.5) == 256.0;
    assert (256.0).Floor == 256;
  }

  /**
   * Valid describes exactly the scanners the constructor can produce: every
   * valid one is what some configuration resolves to.
   */
  lemma ValidScannerIsConstructible(s: Scanner)
    requires s.Valid()
    ensures Resolve(Config(Some(s.encoding), Some(s.tokensPerPage), Some(s.model),
                           Some(OverlapFor(s)))) == Success(s)
  {
    if s.overlap < 1 {
      var p := s.tokensPerPage as real;
      var o := s.overlap as real;
      assert p * (o / p) == o;
      assert o.Floor == s.overlap;
    } else {
      assert (s.overlap as real).Floor == s.overlap;
    }
  }

  /** An overlap setting that resolves to the scanner's overlap. */
  function OverlapFor(s: Scanner): real
    requires s.Valid()
  {
    if s.overlap >= 1 then s.overlap as real else s.overlap as real / s.tokensPerPage as real
  }

  /**
   * The check admits a negative overlap: a fraction of -0.5 of a page of 4
   * resolves to -2, and the stride, 6, is larger than the page.
   */
  lemma NegativeFractionIsAccepted()
    ensures Resolve(Config(None, Some(4), None, Some(-0.5)))
      == Success(Scanner(DefaultEncoding, 4, DefaultModel, -2))
    ensures Resolve(Config(None, Some(4), None, Some(-0.5))).value.Stride() == 6
  {
    assert 4 as real * -0.5 == -2.0;
    assert (-2.0).Floor == -2;
  }
}
