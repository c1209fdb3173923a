/** lib/background.py, JobValidator and ValidatedJob: the checks a submitted
    job goes through before any work is done, in their fixed order. */
module Validation {
  import opened Wrappers
  import opened Text
  import opened Common

  const MustBeInteger: string := "concurrency must be integer"
  const MustBePositive: string := "concurrency must be positive"
  const InvalidUrl: string := "invalid URL"
  const MustBeHttp: string := "URL must be a HTTP resource"

  /** The message for a concurrency above the maximum; it names the maximum,
      although the maximum itself is accepted. */
  function TooLarge(maxConcurrency: int): string {
    "concurrency must be less than " + IntToString(maxConcurrency)
  }

  /** What `urlparse` made of the URL: it raised, or it found a scheme. The
      parser is not modelled; it lower-cases the scheme itself. */
  datatype UrlParse = Unparsable | Parsed(scheme: string)

  /** A job whose parameters passed validation. */
  datatype ValidatedJob = ValidatedJob(id: string, concurrency: int, url: string)

  /** The concurrency the job asks for, when it is within the limits. */
  predicate ConcurrencyAllowed(concurrency: string, maxConcurrency: int) {
    ParseInt(concurrency).Some? && 1 <= ParseInt(concurrency).value <= maxConcurrency
  }

  /** `_validate_concurrency`: an integer first, then positive, then at most
      the maximum. */
  function CheckConcurrency(concurrency: string, maxConcurrency: int): (r: Option<Failure>)
    ensures r.None? <==> ConcurrencyAllowed(concurrency, maxConcurrency)
    ensures r.Some? ==> r.value.Custom?
  {
    match ParseInt(concurrency)
    case None => Some(Custom(MustBeInteger))
    case Some(c) =>
      if c <= 0 then Some(Custom(MustBePositive))
      else if c > maxConcurrency then Some(Custom(TooLarge(maxConcurrency)))
      else None
  }

  /** `_validate_url`: the URL must parse and its scheme must be "http". */
  function CheckUrl(url: string, urlparse: string -> UrlParse): (r: Option<Failure>)
    ensures r.None? <==> urlparse(url) == Parsed("http")
    ensures urlparse(url).Unparsable? ==> r == Some(Custom(InvalidUrl))
    ensures urlparse(url).Parsed? && urlparse(url).scheme != "http" ==> r == Some(Custom(MustBeHttp))
  {
    match urlparse(url)
    case Unparsable => Some(Custom(InvalidUrl))
    case Parsed(scheme) => if scheme == "http" then None else Some(Custom(MustBeHttp))
  }

  /** `ValidatedJob.create_from`: converts the concurrency again; a text that
      is not an integer raises here too. */
  function CreateFrom(job: Job): (r: Result<ValidatedJob, Failure>)
    ensures r.Success? <==> ParseInt(job.concurrency).Some?
    ensures r.Success? ==> r.value.id == job.id && r.value.url == job.url
    ensures r.Success? ==> Some(r.value.concurrency) == ParseInt(job.concurrency)
  {
    match ParseInt(job.concurrency)
    case None => Failure(Unexpected)
    case Some(c) => Success(ValidatedJob(job.id, c, job.url))
  }

  /** `JobValidator.validate`: the concurrency checks, then the URL checks,
      then the conversion. */
  function Validate(job: Job, maxConcurrency: int, urlparse: string -> UrlParse): (r: Result<ValidatedJob, Failure>)
    ensures r.Success? <==> ConcurrencyAllowed(job.concurrency, maxConcurrency) && urlparse(job.url) == Parsed("http")
    ensures r.Success? ==> r.value.id == job.id && r.value.url == job.url
    ensures r.Success? ==> 1 <= r.value.concurrency <= maxConcurrency
    ensures r.Success? ==> Some(r.value.concurrency) == ParseInt(job.concurrency)
    ensures r.Failure? ==> r.error.Custom?
  {
    match CheckConcurrency(job.concurrency, maxConcurrency)
    case Some(f) => Failure(f)
    case None =>
      match CheckUrl(job.url, urlparse)
      case Some(f) => Failure(f)
      case None => CreateFrom(job)
  }

  /** The message of a rejected job is decided by the first check it fails,
      in the order: integer, positive, maximum, URL parse, scheme. */
  lemma ValidateOrder(job: Job, maxConcurrency: int, urlparse: string -> UrlParse)
    ensures ParseInt(job.concurrency).None? ==>
      Validate(job, maxConcurrency, urlparse) == Failure(Custom(MustBeInteger))
    ensures ParseInt(job.concurrency).Some? && ParseInt(job.concurrency).value <= 0 ==>
      Validate(job, maxConcurrency, urlparse) == Failure(Custom(MustBePositive))
    ensures ParseInt(job.concurrency).Some? && 0 < ParseInt(job.concurrency).value && ParseInt(job.concurrency).value > maxConcurrency ==>
      Validate(job, maxConcurrency, urlparse) == Failure(Custom(TooLarge(maxConcurrency)))
    ensures ConcurrencyAllowed(job.concurrency, maxConcurrency) && urlparse(job.url).Unparsable? ==>
      Validate(job, maxConcurrency, urlparse) == Failure(Custom(InvalidUrl))
    ensures ConcurrencyAllowed(job.concurrency, maxConcurrency) && urlparse(job.url).Parsed? && urlparse(job.url).scheme != "http" ==>
      Validate(job, maxConcurrency, urlparse) == Failure(Custom(MustBeHttp))
  {
  }

  /** Every rejection carries one of the five validation messages. */
  lemma ValidateMessages(job: Job, maxConcurrency: int, urlparse: string -> UrlParse)
    requires Validate(job, maxConcurrency, urlparse).Failure?
    ensures Message(Validate(job, maxConcurrency, urlparse).error) in
      {MustBeInteger, MustBePositive, TooLarge(maxConcurrency), InvalidUrl, MustBeHttp}
  {
  }

  /** A concurrency equal to the maximum passes: the check is a strict
      comparison. */
  lemma MaximumAccepted(maxConcurrency: nat)
    requires maxConcurrency >= 1
    ensures ConcurrencyAllowed(IntToString(maxConcurrency), maxConcurrency)
  {
    ParseIntToString(maxConcurrency);
  }

  /** The rejected submissions of the integration tests, with the parser's
      verdicts on their URLs as parameters. */
  lemma ValidateExamples(id: string, maxConcurrency: int, urlparse: string -> UrlParse)
    requires maxConcurrency >= 1
    requires urlparse("http://[") == Unparsable
    requires urlparse("https://example.com") == Parsed("https")
    ensures Validate(Job(id, "hello", "hello"), maxConcurrency, urlparse) == Failure(Custom(MustBeInteger))
    ensures Validate(Job(id, "-10", "hello"), maxConcurrency, urlparse) == Failure(Custom(MustBePositive))
    ensures Validate(Job(id, "0", "hello"), maxConcurrency, urlparse) == Failure(Custom(MustBePositive))
    ensures Validate(Job(id, "1", "http://["), maxConcurrency, urlparse) == Failure(Custom(InvalidUrl))
    ensures Validate(Job(id, "1", "https://example.com"), maxConcurrency, urlparse) == Failure(Custom(MustBeHttp))
  {
    assert "hello"[0] == 'h' && !IsDigit('h');
    assert ParseInt("hello") == None;
    assert "-10"[1..] == "10" && "10"[..1] == "1";
    assert AllDigits("10") && DigitsValue("1") == 1 && DigitsValue("10") == 10;
    assert ParseInt("-10") == Some(-10);
    assert ParseInt("0") == Some(0);
    assert ParseInt("1") == Some(1);
    assert "https" != "http" by {
      assert |"https"| != |"http"|;
    }
  }
}
