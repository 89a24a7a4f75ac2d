/** The characters of a URL by section 2 and appendix A of RFC 3986, as codes, and those that the
    parser takes besides.  Every set is that of a class of HttpUrl. */
module UrlCharacters {
  import HttpUrl
  import Digits

  predicate Alpha(c: char): (r: bool)
    ensures r <==> HttpUrl.IsAlpha(c)
  {
    0x41 <= c as int <= 0x5A || 0x61 <= c as int <= 0x7A
  }

  predicate Digit(c: char): (r: bool)
    ensures r <==> Digits.IsNum(c)
  {
    0x30 <= c as int <= 0x39
  }

  predicate HexDigit(c: char): (r: bool)
    ensures r <==> HttpUrl.IsHex(c)
  {
    Digit(c) || 0x41 <= c as int <= 0x46 || 0x61 <= c as int <= 0x66
  }

  predicate Unreserved(c: char) {
    Alpha(c) || Digit(c) || c as int == 0x2D || c as int == 0x2E || c as int == 0x5F || c as int == 0x7E
  }

  predicate SubDelim(c: char) {
    c in {'!', '$', '&', '\'', '(', ')', '*', '+', ',', ';', '='}
  }

  /** `userinfo`, with '%' for an escape. */
  predicate UserinfoCharacter(c: char): (r: bool)
    ensures r <==> HttpUrl.IsUserinfoChar(c)
  {
    Unreserved(c) || SubDelim(c) || c == '%' || c == ':'
  }

  /** Of `reg-name` only the unreserved characters, and of these not '~'. */
  predicate HostCharacter(c: char): (r: bool)
    ensures r <==> HttpUrl.IsHostChar(c)
  {
    Unreserved(c) && c != '~'
  }

  /** What `pchar`, '/' and '?' leave out, but is taken: tab, form feed, the other printable characters
      without '#', and all from 128 on. */
  predicate Besides(c: char) {
    || c as int == 9 || c as int == 12 || 128 <= c as int
    || c in {'"', '<', '>', '[', '\\', ']', '^', '`', '{', '|', '}'}
  }

  /** `pchar` and '/', and those besides. */
  predicate PathCharacter(c: char): (r: bool)
    ensures r <==> HttpUrl.IsUrlChar(c)
  {
    Unreserved(c) || SubDelim(c) || c in {'%', ':', '@', '/'} || Besides(c)
  }
}
