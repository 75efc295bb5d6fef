/** The URL under which a database row finds its object, and the key read back from it. The parser
    follows sections 2.1, 3.4 and 3.5 of RFC 3986 for escapes, queries and fragments. */
module Urls {
  import opened Model
  import opened Text

  const SCHEME := "s3:"

  function ObjectKey(groupName: string, name: string): string {
    groupName + "/" + name
  }

  function ObjectUrl(bucket: string, key: string): string {
    SCHEME + "//" + bucket + "/" + key
  }

  predicate IsControl(c: char) {
    c < ' ' || c == 0x7F as char
  }

  predicate HasControl(s: string) {
    exists c :: c in s && IsControl(c)
  }

  function HexValue(c: char): Option<nat> {
    if '0' <= c <= '9' then Some(c as int - '0' as int)
    else if 'a' <= c <= 'f' then Some(c as int - 'a' as int + 10)
    else if 'A' <= c <= 'F' then Some(c as int - 'A' as int + 10)
    else None
  }

  /** Replaces every %XX by the byte it stands for. */
  function Unescape(s: string): Result<string> {
    if s == "" then Ok("")
    else if s[0] == '%' then
      if |s| < 3 || HexValue(s[1]).None? || HexValue(s[2]).None? then Err
      else
        match Unescape(s[3..])
        case Err => Err
        case Ok(rest) => Ok([(HexValue(s[1]).value * 16 + HexValue(s[2]).value) as char] + rest)
    else
      match Unescape(s[1..])
      case Err => Err
      case Ok(rest) => Ok([s[0]] + rest)
  }

  /** What follows the first #. */
  function Fragment(s: string): string {
    var unfragmented := Before(s, '#');
    if |unfragmented| < |s| then s[|unfragmented| + 1..] else ""
  }

  /** The path of a URL with this scheme and an authority, or of an empty URL. */
  function ParsePath(url: string): Result<string> {
    if url == "" then Ok("")
    else if !(SCHEME + "//" <= url) then Err
    else
      var unfragmented := Before(url, '#');
      if HasControl(unfragmented) || Unescape(Fragment(url)).Err? then Err
      else
        var unqueried := Before(unfragmented, '?');
        var authority := TrimPrefix(unqueried, SCHEME + "//");
        Unescape(authority[|Before(authority, '/')|..])
  }

  /** The key a row's URL refers to. */
  function KeyOf(url: string): Result<string> {
    match ParsePath(url)
    case Err => Err
    case Ok(path) => Ok(TrimPrefix(path, "/"))
  }

  /** Only letters, digits, dots and hyphens, as in the name of a bucket. */
  predicate BucketName(bucket: string) {
    forall c :: c in bucket ==> '0' <= c <= '9' || 'a' <= c <= 'z' || c == '.' || c == '-'
  }

  /** Free of the characters a URL gives a meaning to. */
  predicate Clean(s: string) {
    '%' !in s && '?' !in s && '#' !in s && !HasControl(s)
  }

  /** The characters that make a key unclean. */
  lemma CleanIs(s: string)
    ensures Clean(s) <==> forall c :: c in s ==> c != '%' && c != '?' && c != '#' && 32 <= c as int && c as int != 127
  {}

  // Escapes.

  function HexDigit(d: nat, upper: bool): char
    requires d < 16
  {
    if d < 10 then ('0' as int + d) as char else if upper then ('A' as int + d - 10) as char else ('a' as int + d - 10) as char
  }

  lemma HexDigits(d: nat, upper: bool)
    requires d < 16
    ensures HexValue(HexDigit(d, upper)) == Some(d)
  {}

  lemma NoOtherHexDigits(c: char)
    ensures HexValue(c).Some? ==> HexValue(c).value < 16 && c in {HexDigit(HexValue(c).value, true), HexDigit(HexValue(c).value, false)}
  {}

  function EscapeChar(c: char): string
    requires c as int < 256
  {
    ['%', HexDigit(c as int / 16, true), HexDigit(c as int % 16, true)]
  }

  function Escape(s: string): string
    requires forall i :: 0 <= i < |s| ==> s[i] as int < 256
  {
    if s == "" then "" else EscapeChar(s[0]) + Escape(s[1..])
  }

  lemma UnescapeChar(c: char, rest: string)
    requires c as int < 256
    ensures Unescape(EscapeChar(c) + rest) == if Unescape(rest).Ok? then Ok([c] + Unescape(rest).value) else Err
  {
    HexDigits(c as int / 16, true);
    HexDigits(c as int % 16, true);
    assert (EscapeChar(c) + rest)[3..] == rest;
    assert c as int / 16 * 16 + c as int % 16 == c as int;
  }

  /** Any bytes can be escaped, and unescaping gives them back. */
  lemma {:induction false} UnescapeEscaped(s: string)
    requires forall i :: 0 <= i < |s| ==> s[i] as int < 256
    ensures Unescape(Escape(s)) == Ok(s)
  {
    if s != "" {
      UnescapeEscaped(s[1..]);
      UnescapeChar(s[0], Escape(s[1..]));
      assert s == [s[0]] + s[1..];
    }
  }

  function Joined(a: Result<string>, b: Result<string>): Result<string> {
    if a.Ok? && b.Ok? then Ok(a.value + b.value) else Err
  }

  lemma JoinedTwice(c: char, a: Result<string>, b: Result<string>)
    ensures Joined(Ok([c]), Joined(a, b)) == Joined(Joined(Ok([c]), a), b)
  {
    if a.Ok? && b.Ok? {
      assert [c] + (a.value + b.value) == [c] + a.value + b.value;
    }
  }

  lemma UnescapeFirst(a: string, b: string) returns (c: char, n: nat)
    requires a != "" && Unescape(a).Ok?
    ensures 0 < n <= |a| && Unescape(a) == Joined(Ok([c]), Unescape(a[n..]))
    ensures Unescape(a + b) == Joined(Ok([c]), Unescape(a[n..] + b))
  {
    if a[0] == '%' {
      c, n := (HexValue(a[1]).value * 16 + HexValue(a[2]).value) as char, 3;
      assert (a + b)[3..] == a[3..] + b && (a + b)[1] == a[1] && (a + b)[2] == a[2];
    } else {
      c, n := a[0], 1;
      assert (a + b)[1..] == a[1..] + b;
    }
  }

  /** Strings are unescaped piece by piece. */
  lemma {:induction false} UnescapeInParts(a: string, b: string)
    requires Unescape(a).Ok?
    ensures Unescape(a + b) == Joined(Unescape(a), Unescape(b))
    decreases |a|
  {
    if a == "" {
      assert a + b == b;
      assert Unescape(b).Ok? ==> "" + Unescape(b).value == Unescape(b).value;
    } else {
      var c, n := UnescapeFirst(a, b);
      UnescapeInParts(a[n..], b);
      JoinedTwice(c, Unescape(a[n..]), Unescape(b));
      hide *;
    }
  }

  /** A percent sign must be followed by two hexadecimal digits. */
  lemma BadEscape(s: string)
    ensures |s| < 2 || HexValue(s[0]).None? || HexValue(s[1]).None? ==> Unescape("%" + s).Err?
    ensures |s| >= 2 && HexValue(s[0]).Some? && HexValue(s[1]).Some? ==> (Unescape("%" + s).Ok? <==> Unescape(s[2..]).Ok?)
  {
    if |s| >= 2 {
      assert ("%" + s)[3..] == s[2..];
    }
  }

  /** The fragment is what follows the first number sign. */
  lemma FragmentIs(before: string, after: string)
    requires '#' !in before
    ensures Fragment(before) == "" && Fragment(before + "#" + after) == after
  {
    assert before + "#" + after == before + ("#" + after);
    IndexAfterPrefix(before, "#" + after, '#');
    BeforeIsCut("#" + after, '#');
    assert (before + ("#" + after))[|before| + 1..] == after;
  }

  /** No URL is no key, and other schemes than that of the rows are refused. */
  lemma OtherSchemesAreRefused(url: string)
    ensures KeyOf("") == Ok("")
    ensures url != "" && !("s3://" <= url) ==> KeyOf(url).Err?
  {
    assert SCHEME + "//" == "s3://";
  }

  lemma {:induction false} UnescapeShrinks(s: string)
    ensures '%' !in s ==> Unescape(s) == Ok(s)
    ensures Unescape(s).Ok? ==> |Unescape(s).value| <= |s|
    ensures Unescape(s).Ok? && '%' in s ==> |Unescape(s).value| < |s|
  {
    if s != "" {
      if s[0] == '%' {
        if |s| >= 3 {
          UnescapeShrinks(s[3..]);
        }
      } else {
        UnescapeShrinks(s[1..]);
        assert s == [s[0]] + s[1..];
      }
    }
  }

  lemma PrefixIsPlain(bucket: string)
    requires BucketName(bucket)
    ensures var prefix := SCHEME + "//" + bucket + "/";
            '#' !in prefix && '?' !in prefix && !HasControl(prefix) && '/' !in bucket
  {}

  /** The path of a printed URL is a slash and what comes before the query. */
  lemma AuthorityEnds(bucket: string, rest: string)
    requires BucketName(bucket)
    ensures var authority := TrimPrefix(SCHEME + "//" + bucket + "/" + rest, SCHEME + "//");
            authority[|Before(authority, '/')|..] == "/" + rest
  {
    PrefixIsPlain(bucket);
    var authority := bucket + ("/" + rest);
    assert SCHEME + "//" + bucket + "/" + rest == (SCHEME + "//") + authority;
    assert ((SCHEME + "//") + authority)[|SCHEME + "//"|..] == authority;
    IndexAfterPrefix(bucket, "/" + rest, '/');
    BeforeIsCut("/" + rest, '/');
    assert authority[|bucket|..] == "/" + rest;
  }

  lemma FragmentOfPrinted(prefix: string, key: string)
    requires '#' !in prefix
    ensures Fragment(prefix + key) == Fragment(key)
  {
    hide Before, IndexOfChar;
    IndexAfterPrefix(prefix, key, '#');
    var n := |Before(key, '#')|;
    if n < |key| {
      assert (prefix + key)[|prefix| + n + 1..] == key[n + 1..];
    }
  }

  lemma ControlAfterPrefix(prefix: string, s: string)
    requires !HasControl(prefix)
    ensures HasControl(prefix + s) <==> HasControl(s)
  {}

  lemma PrefixOfPrinted(bucket: string, key: string)
    ensures ObjectUrl(bucket, key) != "" && SCHEME + "//" <= ObjectUrl(bucket, key)
  {}

  /** Parsing a printed URL amounts to unescaping the key up to its first # or ?. */
  lemma ParsePrinted(bucket: string, key: string)
    requires BucketName(bucket)
    ensures KeyOf(ObjectUrl(bucket, key))
         == if HasControl(Before(key, '#')) || Unescape(Fragment(key)).Err? then Err
            else Unescape(Before(Before(key, '#'), '?'))
  {
    hide Before, Fragment, HasControl, Unescape, TrimPrefix, BucketName;
    var prefix := SCHEME + "//" + bucket + "/";
    var unfragmented := Before(key, '#');
    var path := Before(unfragmented, '?');
    PrefixIsPlain(bucket);
    assert ObjectUrl(bucket, key) == prefix + key;
    IndexAfterPrefix(prefix, key, '#');
    IndexAfterPrefix(prefix, unfragmented, '?');
    assert Before(prefix + key, '#') == prefix + unfragmented;
    FragmentOfPrinted(prefix, key);
    ControlAfterPrefix(prefix, unfragmented);
    AuthorityEnds(bucket, path);
    PrefixOfPrinted(bucket, key);
    SlashStripped(path);
  }

  lemma SlashStripped(path: string)
    ensures Unescape(path).Err? <==> Unescape("/" + path).Err?
    ensures Unescape(path).Ok? ==> TrimPrefix(Unescape("/" + path).value, "/") == Unescape(path).value
  {}

  /** Printing a key's URL and parsing it back gives the key exactly when the key is clean. */
  lemma UrlRoundTrip(bucket: string, key: string)
    requires BucketName(bucket)
    ensures KeyOf(ObjectUrl(bucket, key)) == Ok(key) <==> Clean(key)
    ensures KeyOf(ObjectUrl(bucket, key)) == Ok(key) <==>
              forall c :: c in key ==> c != '%' && c != '?' && c != '#' && 32 <= c as int && c as int != 127
  {
    CleanIs(key);
    var unfragmented := Before(key, '#');
    var path := Before(unfragmented, '?');
    ParsePrinted(bucket, key);
    UnescapeShrinks(path);
    if '#' !in key {
      assert Unescape(Fragment(key)) == Ok("");
    }
    if '#' !in key && '?' !in key {
      assert path == key;
    } else {
      assert |path| < |key|;
    }
  }

  lemma KeyParts(groupName: string, name: string)
    requires '/' !in groupName
    ensures IndexOfChar(ObjectKey(groupName, name), '/') == |groupName|
    ensures ObjectKey(groupName, name)[..|groupName|] == groupName
    ensures ObjectKey(groupName, name)[|groupName| + 1..] == name
  {
    IndexAfterPrefix(groupName, "/" + name, '/');
    assert ObjectKey(groupName, name) == groupName + ("/" + name);
  }

  /** Keys of different groups or names differ, as long as group names have no slash. */
  lemma KeyInjective(group1: string, name1: string, group2: string, name2: string)
    requires '/' !in group1 && '/' !in group2 && ObjectKey(group1, name1) == ObjectKey(group2, name2)
    ensures group1 == group2 && name1 == name2
  {
    KeyParts(group1, name1);
    KeyParts(group2, name2);
  }

  lemma CleanKey(groupName: string, name: string)
    requires Clean(groupName) && Clean(name)
    ensures Clean(ObjectKey(groupName, name))
  {}
}
