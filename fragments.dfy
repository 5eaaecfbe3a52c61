/** The values the handler computes before rendering: the stored image's
    name, the page's image path and the two link buttons. */
module Fragments {
  import opened Wrappers
  import opened Request

  predicate IsDigit(c: char) {
    '0' <= c <= '9'
  }

  predicate AllDigits(s: string) {
    forall i | 0 <= i < |s| :: IsDigit(s[i])
  }

  function DigitChar(d: nat): (c: char)
    requires d < 10
    ensures IsDigit(c)
  {
    ('0' as int + d) as char
  }

  function DigitValue(c: char): nat
    requires IsDigit(c)
  {
    c as int - '0' as int
  }

  /** The decimal text of a millisecond timestamp, as a template literal
      writes the integer `Date.now()`: digits only, no leading zero. */
  function Decimal(n: nat): (s: string)
    ensures |s| >= 1 && AllDigits(s)
    ensures s[0] == '0' ==> n == 0
    decreases n
  {
    if n < 10 then [DigitChar(n)] else Decimal(n / 10) + [DigitChar(n % 10)]
  }

  /** The number a string of digits denotes. */
  function DecimalValue(s: string): nat
    requires AllDigits(s)
    decreases |s|
  {
    if s == [] then 0 else DecimalValue(s[..|s| - 1]) * 10 + DigitValue(s[|s| - 1])
  }

  lemma {:induction false} DecimalRoundTrip(n: nat)
    ensures DecimalValue(Decimal(n)) == n
    decreases n
  {
    if n >= 10 {
      var s := Decimal(n);
      assert s[..|s| - 1] == Decimal(n / 10);
      DecimalRoundTrip(n / 10);
    }
  }

  /** The name under which an uploaded image is stored,
      `<timestamp>-<original name>`; no name when nothing was uploaded. */
  function ImageName(now: nat, file: Option<Upload>): Option<string> {
    match file
    case Some(u) => Some(Decimal(now) + "-" + u.originalName)
    case None => None
  }

  /** The text before and after the first '-'. */
  function SplitAtDash(s: string): Option<(string, string)>
    decreases |s|
  {
    if s == [] then None
    else if s[0] == '-' then Some(([], s[1..]))
    else match SplitAtDash(s[1..])
      case None => None
      case Some(p) => Some(([s[0]] + p.0, p.1))
  }

  lemma {:induction false} SplitAtDashAppend(a: string, b: string)
    requires '-' !in a
    ensures SplitAtDash(a + "-" + b) == Some((a, b))
    decreases |a|
  {
    var s := a + "-" + b;
    if a == [] {
      assert s == ['-'] + b;
    } else {
      SplitAtDashAppend(a[1..], b);
      assert s[1..] == a[1..] + "-" + b;
      assert a == [a[0]] + a[1..];
    }
  }

  /** Recovers the timestamp and original name from a stored image's name. */
  function ParseImageName(name: string): Option<(nat, string)> {
    match SplitAtDash(name)
    case Some(p) => if p.0 != [] && AllDigits(p.0) then Some((DecimalValue(p.0), p.1)) else None
    case None => None
  }

  /** A stored name is present exactly when a file was uploaded, and it gives
      back the timestamp and the original name it was built from. */
  lemma ImageNameRoundTrip(now: nat, file: Option<Upload>)
    ensures ImageName(now, file).Some? <==> file.Some?
    ensures file.Some? ==> ParseImageName(ImageName(now, file).value) == Some((now, file.value.originalName))
  {
    if file.Some? {
      var digits := Decimal(now);
      assert '-' !in digits;
      SplitAtDashAppend(digits, file.value.originalName);
      DecimalRoundTrip(now);
    }
  }

  /** Two uploads get the same stored name exactly when they share both the
      millisecond and the original name. */
  lemma ImageNameCollision(t1: nat, u1: Upload, t2: nat, u2: Upload)
    ensures ImageName(t1, Some(u1)) == ImageName(t2, Some(u2)) <==> t1 == t2 && u1 == u2
  {
    ImageNameRoundTrip(t1, Some(u1));
    ImageNameRoundTrip(t2, Some(u2));
  }

  const ImageDir: string := "img/projects/"

  /** The value for `{{IMAGE_PATH}}`: the stored image under the image
      directory, or the empty string. */
  function ImagePath(name: Option<string>): string {
    match name
    case Some(n) => ImageDir + n
    case None => ""
  }

  /** The page shows an image path exactly when a file was uploaded, and that
      path names the stored file. */
  lemma ImagePathOfUpload(now: nat, file: Option<Upload>)
    ensures ImagePath(ImageName(now, file)) == [] <==> file.None?
    ensures file.Some? ==> ImagePath(ImageName(now, file)) == ImageDir + Decimal(now) + "-" + file.value.originalName
  {
    if file.Some? {
      assert |ImagePath(ImageName(now, file))| >= |ImageDir|;
    }
  }

  const AnchorOpen: string := "<a href=\""
  const GithubClose: string := "\" target=\"_blank\" class=\"btn btn-dark me-2\">GitHub</a>"
  const ItchClose: string := "\" target=\"_blank\" class=\"btn btn-danger\">Itch.io</a>"

  /** A fixed-class anchor around the URL, embedded as it is; nothing when
      the URL is empty. */
  function Button(url: string, close: string): string {
    if url == [] then [] else AnchorOpen + url + close
  }

  function GithubButton(github: string): string {
    Button(github, GithubClose)
  }

  function ItchButton(itch: string): string {
    Button(itch, ItchClose)
  }

  /** The URL inside a button fragment with the given closing text, if the
      fragment has the button's shape. */
  function LinkOf(fragment: string, close: string): Option<string> {
    if |fragment| >= |AnchorOpen| + |close|
       && fragment[..|AnchorOpen|] == AnchorOpen
       && fragment[|fragment| - |close|..] == close
    then Some(fragment[|AnchorOpen|..|fragment| - |close|])
    else None
  }

  /** A button is empty exactly when its URL is, and otherwise gives back
      exactly the URL it was built from. */
  lemma ButtonRoundTrip(url: string, close: string)
    ensures Button(url, close) == [] <==> url == []
    ensures LinkOf(Button(url, close), close) == if url == [] then None else Some(url)
  {
    if url != [] {
      var b := Button(url, close);
      assert b[..|AnchorOpen|] == AnchorOpen;
      assert b[|b| - |close|..] == close;
      assert b[|AnchorOpen|..|b| - |close|] == url;
    }
  }
}
