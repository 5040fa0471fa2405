/** helpers.py: the codec an archive of a given month was compressed with, and the
    test that decides whether a comment line belongs to the target subreddit. */
module Helpers {
  import opened Wrappers
  import opened Text
  import opened Environment

  /** The compression formats the comment archives were published in, oldest first. */
  datatype Codec = Bz2 | Xz | Zst {
    /** The file extension an archive in this format carries. */
    function Extension(): string {
      match this
      case Bz2 => "bz2"
      case Xz => "xz"
      case Zst => "zst"
    }

    /** Position in the order the archive provider adopted the formats. */
    function Rank(): nat {
      match this
      case Bz2 => 0
      case Xz => 1
      case Zst => 2
    }
  }

  /** `infer_extension(year, month)`. Any integers are accepted; months outside 1..12
      fall through the same comparisons the source makes. */
  function InferExtension(year: int, month: int): Codec
  {
    if (year == 2018 && month < 10) || (year == 2017 && month == 12) then Xz
    else if year < 2017 || (year == 2017 && month < 12) then Bz2
    else Zst
  }

  /** Months counted on one axis, so that calendar order of (year, month) becomes integer order. */
  function MonthIndex(year: int, month: int): int {
    year * 12 + (month - 1)
  }

  /** The three eras of the archive: bz2 up to 2017-11, xz from 2017-12 to 2018-09, zst from 2018-10 on. */
  lemma CodecEras(year: int, month: int)
    requires 1 <= month <= 12
    ensures InferExtension(year, month) == Bz2 <==> MonthIndex(year, month) < MonthIndex(2017, 12)
    ensures InferExtension(year, month) == Xz <==>
      MonthIndex(2017, 12) <= MonthIndex(year, month) < MonthIndex(2018, 10)
    ensures InferExtension(year, month) == Zst <==> MonthIndex(2018, 10) <= MonthIndex(year, month)
  {
  }

  /** The codec never moves back to an older format as the months advance. */
  lemma CodecMonotone(y1: int, m1: int, y2: int, m2: int)
    requires 1 <= m1 <= 12 && 1 <= m2 <= 12
    requires MonthIndex(y1, m1) <= MonthIndex(y2, m2)
    ensures InferExtension(y1, m1).Rank() <= InferExtension(y2, m2).Rank()
  {
    CodecEras(y1, m1);
    CodecEras(y2, m2);
  }

  /** The extension is always one of the three archive formats, and names its codec. */
  lemma ExtensionNamesCodec(year: int, month: int)
    ensures InferExtension(year, month).Extension() in ["bz2", "xz", "zst"]
    ensures forall c: Codec :: c.Extension() == InferExtension(year, month).Extension() ==> c == InferExtension(year, month)
  {
  }

  // ------------------------------------------------------------ records

  /** What the pipeline reads from one JSON record: its `subreddit` if present and a
      string, and its `created_utc` if present and convertible by `int()`. */
  datatype Record = Record(subreddit: Option<string>, createdUtc: Option<int>)

  /** UTF-8 decoding followed by `json.loads`: `None` when either raises. */
  type Parser = Line -> Option<Record>

  /** `is_relevant_ln(ln, subreddit)`: compares the record's lower-cased `subreddit`
      with the target as given. Decoding and parsing failures and a missing field are
      not caught, so they are errors rather than `false`. */
  function IsRelevantLn(parse: Parser, ln: Line, subreddit: string): Result<bool, Error>
  {
    match parse(ln)
    case None => Failure(MalformedLine(ln))
    case Some(rec) =>
      match rec.subreddit
      case None => Failure(MissingField("subreddit"))
      case Some(s) => Success(AsciiLower(s) == subreddit)
  }

  /** A line the extraction keeps. */
  predicate Relevant(parse: Parser, ln: Line, subreddit: string) {
    IsRelevantLn(parse, ln, subreddit) == Success(true)
  }

  /** The test fails exactly on lines that do not parse or lack a subreddit, and
      otherwise answers whether the subreddit lower-cases to the target. */
  lemma IsRelevantLnOutcome(parse: Parser, ln: Line, subreddit: string)
    ensures IsRelevantLn(parse, ln, subreddit).Failure? <==>
      parse(ln).None? || parse(ln).value.subreddit.None?
    ensures IsRelevantLn(parse, ln, subreddit).Success? ==>
      (IsRelevantLn(parse, ln, subreddit).value <==> AsciiLower(parse(ln).value.subreddit.value) == subreddit)
  {
  }

  /** For a lower-case target the test is a case-insensitive comparison of the names. */
  lemma RelevanceIgnoresCase(parse: Parser, ln: Line, subreddit: string)
    requires !HasAsciiUpper(subreddit)
    ensures Relevant(parse, ln, subreddit) <==>
      parse(ln).Some? && parse(ln).value.subreddit.Some?
      && EqualIgnoringCase(parse(ln).value.subreddit.value, subreddit)
  {
    if parse(ln).Some? && parse(ln).value.subreddit.Some? {
      var s := parse(ln).value.subreddit.value;
      AsciiLowerKeepsLower(subreddit);
      if EqualIgnoringCase(s, subreddit) {
        assert AsciiLower(s) == AsciiLower(subreddit);
      }
    }
  }

  /** A target with an upper-case letter matches nothing, which is why callers lower-case it first. */
  lemma UpperCaseTargetMatchesNothing(parse: Parser, ln: Line, subreddit: string)
    requires HasAsciiUpper(subreddit)
    ensures !Relevant(parse, ln, subreddit)
  {
    if parse(ln).Some? && parse(ln).value.subreddit.Some? {
      AsciiLowerHasNoUpper(parse(ln).value.subreddit.value);
    }
  }
}
