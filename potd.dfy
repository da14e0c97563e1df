/**
 * get_wikipedia_potd: the checks made on the fetched page, in order, each
 * ending the run with an error, and the image URL and description it returns.
 * The HTTP request and the HTML queries are not modelled; their answers are
 * the inputs (a status code and what each `find` returned).
 */
module Potd {
  import opened Wrappers
  import opened UrlRewrite

  const StatusOk: int := 200
  const SrcAttribute: string := "src"

  /** A <div> the page query returned: the attributes of its first <img>, if any, and its text. */
  datatype Div = Div(firstImg: Option<map<string, string>>, text: string)

  /** The page as the script sees it. */
  datatype Page = Page(
    status: int,
    potd: Option<Div>,             // soup.find('div', id='potd')
    potdDesc: Option<Div>,         // soup.find('div', id='potd-desc')
    potdDescription: Option<Div>)  // soup.find('div', id='potd-description')

  /** The messages after which the script exits with status 1. */
  datatype PotdError =
    | BadStatus(code: int)
    | NoPictureOfTheDay
    | NoImage
    | NoDescription

  datatype Picture = Picture(imageUrl: string, description: string)

  /** The characters Python's str.strip() removes (str.isspace()). */
  predicate IsWhitespace(c: char) {
    var x := c as int;
    (0x09 <= x <= 0x0D) || (0x1C <= x <= 0x20) || x == 0x85 || x == 0xA0 || x == 0x1680 ||
    (0x2000 <= x <= 0x200A) || x == 0x2028 || x == 0x2029 || x == 0x202F || x == 0x205F || x == 0x3000
  }

  predicate AllWhitespace(s: string) {
    forall k :: 0 <= k < |s| ==> IsWhitespace(s[k])
  }

  /** Number of whitespace characters at the start of s. */
  function LeadingWhitespace(s: string): (n: nat)
    ensures n <= |s| && AllWhitespace(s[..n])
    ensures n < |s| ==> !IsWhitespace(s[n])
  {
    if s != [] && IsWhitespace(s[0]) then
      var n := 1 + LeadingWhitespace(s[1..]);
      assert s[..n] == [s[0]] + s[1..][..n - 1];
      n
    else
      0
  }

  /** Number of whitespace characters that end s[..end]. */
  function TrailingWhitespace(s: string, end: nat): (n: nat)
    requires end <= |s|
    ensures n <= end
    ensures forall k :: end - n <= k < end ==> IsWhitespace(s[k])
    ensures n < end ==> !IsWhitespace(s[end - 1 - n])
  {
    if end > 0 && IsWhitespace(s[end - 1]) then 1 + TrailingWhitespace(s, end - 1) else 0
  }

  /** s with nothing but whitespace before i and from j on, and r == s[i..j] has no whitespace at either end. */
  ghost predicate IsStripOf(r: string, s: string) {
    (r == [] || (!IsWhitespace(r[0]) && !IsWhitespace(r[|r| - 1]))) &&
    exists i, j :: 0 <= i <= j <= |s| && r == s[i..j] && AllWhitespace(s[..i]) && AllWhitespace(s[j..])
  }

  /** str.strip(): s without its leading and trailing whitespace. */
  function Strip(s: string): (r: string)
    ensures IsStripOf(r, s)
  {
    var a := LeadingWhitespace(s);
    var rest := s[a..];
    var b := TrailingWhitespace(rest, |rest|);
    var r := rest[..|rest| - b];
    assert r == s[a..|s| - b];
    assert s[|s| - b..] == rest[|rest| - b..];
    r
  }

  /** Stripping twice is stripping once. */
  lemma StripIdempotent(s: string)
    ensures Strip(Strip(s)) == Strip(s)
  {
  }

  /** A string with no whitespace at either end is its own strip. */
  lemma StripUnchanged(s: string)
    requires s == [] || (!IsWhitespace(s[0]) && !IsWhitespace(s[|s| - 1]))
    ensures Strip(s) == s
  {
  }

  /** `soup.find('div', id='potd-desc') or soup.find('div', id='potd-description')`: a found tag is always truthy. */
  function DescriptionDiv(page: Page): (div: Option<Div>)
    ensures div.Some? <==> page.potdDesc.Some? || page.potdDescription.Some?
    ensures page.potdDesc.Some? ==> div == page.potdDesc
    ensures page.potdDesc.None? ==> div == page.potdDescription
  {
    if page.potdDesc.Some? then page.potdDesc else page.potdDescription
  }

  /** The `src` of the first image in the picture-of-the-day div, if the script gets that far. */
  function ImageSource(page: Page): (src: Option<string>)
    ensures src.Some? <==> page.potd.Some? && page.potd.value.firstImg.Some? &&
                           SrcAttribute in page.potd.value.firstImg.value
    ensures src.Some? ==> src.value == page.potd.value.firstImg.value[SrcAttribute]
  {
    if page.potd.Some? && page.potd.value.firstImg.Some? && SrcAttribute in page.potd.value.firstImg.value
    then Some(page.potd.value.firstImg.value[SrcAttribute])
    else None
  }

  /** get_wikipedia_potd on a fetched page. */
  function GetPotd(page: Page): (r: Result<Picture, PotdError>)
    ensures r.Success? <==>
              page.status == StatusOk && ImageSource(page).Some? && DescriptionDiv(page).Some?
    ensures page.status != StatusOk ==> r == Failure(BadStatus(page.status))
    ensures page.status == StatusOk && page.potd.None? ==> r == Failure(NoPictureOfTheDay)
    ensures page.status == StatusOk && page.potd.Some? && ImageSource(page).None? ==> r == Failure(NoImage)
    ensures page.status == StatusOk && ImageSource(page).Some? && DescriptionDiv(page).None? ==>
              r == Failure(NoDescription)
    ensures r.Success? ==>
              r.value.imageUrl == NormaliseImageSource(ImageSource(page).value) &&
              IsStripOf(r.value.description, DescriptionDiv(page).value.text)
  {
    if page.status != StatusOk then
      Failure(BadStatus(page.status))
    else if page.potd.None? then
      Failure(NoPictureOfTheDay)
    else if ImageSource(page).None? then
      Failure(NoImage)
    else
      var url := NormaliseImageSource(ImageSource(page).value);
      match DescriptionDiv(page)
      case None => Failure(NoDescription)
      case Some(div) => Success(Picture(url, Strip(div.text)))
  }

  /** A picture the script returns always has an "http" URL and a description without surrounding whitespace. */
  lemma PotdResultShape(page: Page)
    requires GetPotd(page).Success?
    ensures "http" <= GetPotd(page).value.imageUrl
    ensures Strip(GetPotd(page).value.description) == GetPotd(page).value.description
  {
    StripIdempotent(DescriptionDiv(page).value.text);
  }
}
