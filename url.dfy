/** The part of Python's `urllib.parse.urlparse` that facelock consults: the
    scheme of a string, computed as `urlsplit` does in Python 3.12. The string
    is first cleaned (leading C0 controls and spaces stripped, tabs and line
    breaks deleted); the scheme is then the text before the first ':', lowered,
    when that text is non-empty, starts with an ASCII letter and holds only
    letters, digits, '+', '-' and '.'; otherwise the scheme is empty. */
module Url {

  /** Leading characters urlsplit strips: the C0 controls and the space. */
  predicate IsControlOrSpace(c: char) { c <= ' ' }

  /** Characters urlsplit deletes wherever they occur. */
  predicate IsUnsafe(c: char) { c == '\t' || c == '\r' || c == '\n' }

  predicate IsAsciiLetter(c: char) { 'a' <= c <= 'z' || 'A' <= c <= 'Z' }

  predicate IsSchemeChar(c: char)
  {
    IsAsciiLetter(c) || '0' <= c <= '9' || c == '+' || c == '-' || c == '.'
  }

  function LowerChar(c: char): char
  {
    if 'A' <= c <= 'Z' then (c as int + 32) as char else c
  }

  /** ASCII lower-casing, letter by letter. */
  function Lower(s: string): (r: string)
    ensures |r| == |s|
    ensures forall k :: 0 <= k < |s| ==> r[k] == LowerChar(s[k])
  {
    seq(|s|, k requires 0 <= k < |s| => LowerChar(s[k]))
  }

  function StripLeading(s: string): (r: string)
    ensures r == [] || !IsControlOrSpace(r[0])
    ensures |r| <= |s| && r == s[|s| - |r|..]
  {
    if s != [] && IsControlOrSpace(s[0]) then StripLeading(s[1..]) else s
  }

  function RemoveUnsafe(s: string): (r: string)
    ensures forall c :: c in r ==> c in s && !IsUnsafe(c)
  {
    if s == [] then []
    else (if IsUnsafe(s[0]) then [] else [s[0]]) + RemoveUnsafe(s[1..])
  }

  /** The string urlsplit actually takes apart. */
  function Clean(url: string): string
  {
    RemoveUnsafe(StripLeading(url))
  }

  /** `s.find(x)`, with |s| standing for "not found". */
  function IndexOf(s: string, x: char): (i: nat)
    ensures i <= |s|
    ensures i < |s| ==> s[i] == x
    ensures forall k :: 0 <= k < i ==> s[k] != x
  {
    if s == [] || s[0] == x then 0 else 1 + IndexOf(s[1..], x)
  }

  function SplitScheme(c: string): string
  {
    var i := IndexOf(c, ':');
    if 0 < i < |c| && IsAsciiLetter(c[0]) && (forall k :: 0 <= k < i ==> IsSchemeChar(c[k]))
    then Lower(c[..i])
    else ""
  }

  /** `urlparse(url).scheme`: empty, or the lowered text that precedes the
      first ':' of the cleaned string. */
  function Scheme(url: string): (r: string)
    ensures r != "" ==>
              var c := Clean(url);
              |r| < |c| && c[|r|] == ':' && Lower(c[..|r|]) == r && ':' !in c[..|r|]
  {
    var c := Clean(url);
    var r := SplitScheme(c);
    if r != "" then
      assert forall k :: 0 <= k < |r| ==> c[..|r|][k] != ':';
      r
    else r
  }

  /** `parsed_url.scheme == 'http' or parsed_url.scheme == 'https'`. */
  predicate IsWebUrl(url: string)
  {
    Scheme(url) == "http" || Scheme(url) == "https"
  }

  /** The same test read off the string itself: it begins with "http:" or
      "https:", in any mix of upper and lower case. */
  predicate HasWebPrefix(c: string)
  {
    (|c| >= 5 && Lower(c[..5]) == "http:") || (|c| >= 6 && Lower(c[..6]) == "https:")
  }

  /** A string is fetched over the web exactly when, once cleaned, it starts
      with "http:" or "https:" in any letter case. */
  lemma WebUrlIffWebPrefix(url: string)
    ensures IsWebUrl(url) <==> HasWebPrefix(Clean(url))
  {
    if IsWebUrl(url) {
      WebUrlHasWebPrefix(url);
    }
    var c := Clean(url);
    if |c| >= 5 && Lower(c[..5]) == "http:" {
      PrefixScheme(c, "http");
    } else if |c| >= 6 && Lower(c[..6]) == "https:" {
      PrefixScheme(c, "https");
    }
  }

  lemma WebUrlHasWebPrefix(url: string)
    requires IsWebUrl(url)
    ensures HasWebPrefix(Clean(url))
  {
    var c, r := Clean(url), Scheme(url);
    LoweredPrefixColon(c, r);
    if r == "http" {
      assert r + ":" == "http:";
    } else {
      assert r + ":" == "https:";
    }
  }

  /** When the first n characters of c lower to r and c[n] is ':', the first
      n + 1 lower to r + ":". */
  lemma LoweredPrefixColon(c: string, r: string)
    requires |r| < |c| && c[|r|] == ':' && Lower(c[..|r|]) == r
    ensures Lower(c[..|r| + 1]) == r + ":"
  {
    var n := |r|;
    var lowered := Lower(c[..n + 1]);
    forall k | 0 <= k < n + 1 ensures lowered[k] == (r + ":")[k] {
      if k < n {
        assert lowered[k] == LowerChar(c[k]) == Lower(c[..n])[k];
      }
    }
  }

  /** A cleaned string that starts with `name` (any letter case) and ':' has
      scheme `name`, for a name of lower-case letters. */
  lemma PrefixScheme(c: string, name: string)
    requires 0 < |name| < |c|
    requires forall k :: 0 <= k < |name| ==> 'a' <= name[k] <= 'z'
    requires Lower(c[..|name| + 1]) == name + ":"
    ensures SplitScheme(c) == name
  {
    var n := |name|;
    assert LowerChar(c[n]) == Lower(c[..n + 1])[n] == ':';
    forall k | 0 <= k < n ensures IsAsciiLetter(c[k]) && LowerChar(c[k]) == name[k] {
      assert LowerChar(c[k]) == Lower(c[..n + 1])[k] == (name + ":")[k];
    }
    assert IndexOf(c, ':') == n;
    assert Lower(c[..n]) == name;
  }

  /** A string with no ':' has an empty scheme, so it is read as a file path. */
  lemma NoColonNoScheme(url: string)
    requires ':' !in url
    ensures Scheme(url) == "" && !IsWebUrl(url)
  {
    var c := Clean(url);
    assert ':' !in StripLeading(url);
    assert IndexOf(c, ':') == |c|;
  }
}
