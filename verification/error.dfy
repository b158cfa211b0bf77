/**
 The build error of the index (error.rs): a single structured variant that
 records how many data points a stage of the build needs, which stage it is,
 and how many points were supplied, and the one-line message it displays as.
 */
module Errors {
  import opened Wrappers
  import opened Decimal

  /** `BuildError::NotEnoughDataPoints`. The `usize` counts are naturals and the
      `&'static str` stage label is a string. */
  datatype BuildError = NotEnoughDataPoints(expected: nat, cause: string, found: nat)

  /** `BuildError::not_enough_data_points`: the three arguments are stored
      unchanged in the only variant. */
  function MakeNotEnoughDataPoints(expected: nat, cause: string, found: nat): (e: BuildError)
    ensures e.expected == expected && e.cause == cause && e.found == found
  {
    NotEnoughDataPoints(expected, cause, found)
  }

  const Prefix: string := "Expected at least "
  const Middle: string := " data points to build "
  const Separator: string := ", found "

  /** The `Display` rendering of a build error. It is defined for every value
      (the match over the single variant is exhaustive), starts with the fixed
      prefix, is followed directly by the decimal expected count, and ends with
      the decimal found count. */
  function Message(e: BuildError): (m: string)
    ensures Prefix <= m
    ensures LeadingDigits(m[|Prefix|..]) == NatToString(e.expected)
    ensures TrailingDigits(m) == NatToString(e.found)
    ensures |m| == |Prefix| + |NatToString(e.expected)| + |Middle| + |e.cause| + |Separator| + |NatToString(e.found)|
  {
    match e
    case NotEnoughDataPoints(expected, cause, found) =>
      var m := Prefix + NatToString(expected) + Middle + cause + Separator + NatToString(found);
      FieldsAreDelimited(Prefix, NatToString(expected), Middle, cause, Separator, NatToString(found));
      m
  }

  /** The digit runs of `p + x + mid + c + sep + y` are `x` and `y` whenever
      the text around them does not continue them. */
  lemma FieldsAreDelimited(p: string, x: string, mid: string, c: string, sep: string, y: string)
    requires AllDigits(x) && AllDigits(y)
    requires |mid| > 0 && !IsDigit(mid[0])
    requires |sep| > 0 && !IsDigit(sep[|sep| - 1])
    ensures p <= p + x + mid + c + sep + y
    ensures LeadingDigits((p + x + mid + c + sep + y)[|p|..]) == x
    ensures TrailingDigits(p + x + mid + c + sep + y) == y
  {
    var m := p + x + mid + c + sep + y;
    assert m[|p|..] == x + (mid + c + sep + y);
    LeadingDigitsOfConcat(x, mid + c + sep + y);
    assert m == (p + x + mid + c + sep) + y;
    TrailingDigitsOfConcat(p + x + mid + c + sep, y);
  }

  /** Reads the three fields back out of a message: the expected count is the
      digit run after the prefix, the found count is the digit run at the end,
      and the stage label is whatever lies between the fixed middle text and the
      fixed separator. */
  function ParseMessage(m: string): Option<BuildError> {
    ParseDelimited(m, Prefix, Middle, Separator)
  }

  /** `ParseMessage` for an arbitrary choice of the three fixed texts. */
  function ParseDelimited(m: string, p: string, mid: string, sep: string): Option<BuildError> {
    if !(p <= m) then None
    else SplitFields(m, p, mid, sep, LeadingDigits(m[|p|..]), TrailingDigits(m))
  }

  /** Cuts `m` into prefix, expected digits `exp`, middle text, stage label,
      separator and found digits `fnd`, failing when the fixed texts are not
      where they belong. */
  function SplitFields(m: string, p: string, mid: string, sep: string, exp: string, fnd: string): Option<BuildError>
    requires AllDigits(exp) && AllDigits(fnd)
  {
    var causeStart := |p| + |exp| + |mid|;
    var causeEnd := |m| - |fnd| - |sep|;
    if |exp| == 0 || |fnd| == 0 || causeEnd < causeStart then None
    else if m[|p| + |exp|..causeStart] != mid || m[causeEnd..|m| - |fnd|] != sep then None
    else Some(NotEnoughDataPoints(ParseDigits(exp), m[causeStart..causeEnd], ParseDigits(fnd)))
  }

  /** The message keeps every field diagnosable: parsing it gives back the
      error it was rendered from, whatever the stage label contains. */
  lemma MessageRoundTrip(e: BuildError)
    ensures ParseMessage(Message(e)) == Some(e)
  {
    DelimitedRoundTrip(Prefix, NatToString(e.expected), Middle, e.cause, Separator, NatToString(e.found));
    ParseNatToString(e.expected);
    ParseNatToString(e.found);
  }

  lemma DelimitedRoundTrip(p: string, x: string, mid: string, c: string, sep: string, y: string)
    requires |x| > 0 && |y| > 0
    requires AllDigits(x) && AllDigits(y)
    requires |mid| > 0 && !IsDigit(mid[0])
    requires |sep| > 0 && !IsDigit(sep[|sep| - 1])
    ensures ParseDelimited(p + x + mid + c + sep + y, p, mid, sep)
            == Some(NotEnoughDataPoints(ParseDigits(x), c, ParseDigits(y)))
  {
    var m := p + x + mid + c + sep + y;
    FieldsAreDelimited(p, x, mid, c, sep, y);
    PiecesOfConcat(m, p, x, mid, c, sep, y);
    ParseDelimitedFields(m, p, x, mid, c, sep, y);
  }

  lemma PiecesOfConcat(m: string, p: string, x: string, mid: string, c: string, sep: string, y: string)
    requires m == p + x + mid + c + sep + y
    ensures |m| == |p| + |x| + |mid| + |c| + |sep| + |y|
    ensures m[|p| + |x|..|p| + |x| + |mid|] == mid
    ensures m[|p| + |x| + |mid|..|m| - |y| - |sep|] == c
    ensures m[|m| - |y| - |sep|..|m| - |y|] == sep
  {
    assert m == (p + x) + mid + (c + sep + y);
    assert m == (p + x + mid) + c + (sep + y);
    assert m == (p + x + mid + c) + sep + y;
  }

  /** `ParseDelimited` succeeds on any string whose pieces sit where it looks for them. */
  lemma ParseDelimitedFields(m: string, p: string, x: string, mid: string, c: string, sep: string, y: string)
    requires p <= m && |x| > 0 && |y| > 0
    requires AllDigits(x) && AllDigits(y)
    requires |m| == |p| + |x| + |mid| + |c| + |sep| + |y|
    requires LeadingDigits(m[|p|..]) == x && TrailingDigits(m) == y
    requires m[|p| + |x|..|p| + |x| + |mid|] == mid
    requires m[|p| + |x| + |mid|..|m| - |y| - |sep|] == c
    requires m[|m| - |y| - |sep|..|m| - |y|] == sep
    ensures ParseDelimited(m, p, mid, sep) == Some(NotEnoughDataPoints(ParseDigits(x), c, ParseDigits(y)))
  {
    assert SplitFields(m, p, mid, sep, x, y) == Some(NotEnoughDataPoints(ParseDigits(x), c, ParseDigits(y)));
  }
}
