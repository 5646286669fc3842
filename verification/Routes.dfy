// transport.go's JoinPath and plan.go's empty-segment guard: building request paths from
// caller-supplied segments.
module Routes {
  import opened Basics

  /** Go strings are byte strings; an octet is one of their bytes, shown as a character. */
  type octet = c: char | c as int < 256

  type Text = seq<octet>

  // ----- splitting and joining

  function Join(parts: seq<Text>): Text {
    if parts == [] then ""
    else if |parts| == 1 then parts[0]
    else parts[0] + "/" + Join(parts[1..])
  }

  /** strings.Split(s, "/"). */
  function Split(s: Text): (parts: seq<Text>)
    ensures parts != []
  {
    if s == "" then [""]
    else
      var rest := Split(s[1..]);
      if s[0] == '/' then [""] + rest else [[s[0]] + rest[0]] + rest[1..]
  }

  predicate SlashFree(s: Text) { '/' !in s }

  lemma {:induction false} SplitPrefix(a: Text, s: Text)
    requires SlashFree(a)
    ensures Split(a + s) == [a + Split(s)[0]] + Split(s)[1..]
  {
    if a == "" {
      assert a + s == s && a + Split(s)[0] == Split(s)[0];
    } else {
      SplitPrefix(a[1..], s);
      SplitByte(a[0], a[1..] + s);
      assert a + s == [a[0]] + (a[1..] + s);
      assert a + Split(s)[0] == [a[0]] + (a[1..] + Split(s)[0]);
    }
  }

  lemma SplitByte(c: octet, s: Text)
    requires c != '/'
    ensures Split([c] + s) == [[c] + Split(s)[0]] + Split(s)[1..]
  {
    assert ([c] + s)[1..] == s;
  }

  lemma SplitFirst(a: Text, rest: Text)
    requires SlashFree(a)
    ensures Split(a + "/" + rest) == [a] + Split(rest)
  {
    var tail: Text := "/" + rest;
    assert tail[1..] == rest;
    SplitPrefix(a, tail);
    assert a + tail == a + "/" + rest && a + "" == a;
  }

  lemma SplitNone(a: Text)
    requires SlashFree(a)
    ensures Split(a) == [a]
  {
    SplitPrefix(a, "");
    assert a + "" == a;
  }

  /** Splitting undoes joining, for any non-empty list of slash-free parts. */
  lemma {:induction false} SplitJoin(parts: seq<Text>)
    requires parts != [] && forall p | p in parts :: SlashFree(p)
    ensures Split(Join(parts)) == parts
  {
    assert parts[0] in parts;
    if |parts| == 1 {
      SplitNone(parts[0]);
    } else {
      SplitJoin(parts[1..]);
      SplitFirst(parts[0], Join(parts[1..]));
    }
  }

  lemma {:induction false} SplitSlashFree(s: Text)
    ensures forall p | p in Split(s) :: SlashFree(p)
  {
    if s != "" {
      SplitSlashFree(s[1..]);
      var rest := Split(s[1..]);
      assert rest[0] in rest;
      if s[0] != '/' { assert SlashFree([s[0]] + rest[0]); }
    }
  }

  lemma {:induction false} JoinSplit(s: Text)
    ensures Join(Split(s)) == s
  {
    if s != "" {
      JoinSplit(s[1..]);
      var rest := Split(s[1..]);
      if s[0] == '/' {
        assert ([""] + rest)[1..] == rest;
      } else if |rest| > 1 {
        assert ([[s[0]] + rest[0]] + rest[1..])[1..] == rest[1..];
      }
    }
  }

  // ----- percent-escaping (url.PathEscape, url.PathUnescape)

  predicate Alphanumeric(c: char) { 'a' <= c <= 'z' || 'A' <= c <= 'Z' || '0' <= c <= '9' }

  /** The bytes url.PathEscape leaves alone: RFC 3986's unreserved ones and $ & + : = @. */
  predicate Kept(c: char) {
    || Alphanumeric(c)
    || c == '-' || c == '_' || c == '.' || c == '~'
    || c == '$' || c == '&' || c == '+' || c == ':' || c == '=' || c == '@'
  }

  function HexDigit(d: int): (c: octet)
    requires 0 <= d < 16
    ensures c == "0123456789ABCDEF"[d]
  {
    if d < 10 then ('0' as int + d) as char else ('A' as int + d - 10) as char
  }

  function HexValue(c: char): (v: Option<int>)
    ensures v.Some? ==> 0 <= v.value < 16
  {
    if '0' <= c <= '9' then Some(c as int - '0' as int)
    else if 'A' <= c <= 'F' then Some(c as int - 'A' as int + 10)
    else if 'a' <= c <= 'f' then Some(c as int - 'a' as int + 10)
    else None
  }

  function EscapeByte(c: octet): Text {
    if Kept(c) then [c] else ['%', HexDigit(c as int / 16), HexDigit(c as int % 16)]
  }

  function Escape(s: Text): Text {
    if s == "" then "" else EscapeByte(s[0]) + Escape(s[1..])
  }

  /** url.PathUnescape; None stands for a malformed escape. */
  function Unescape(s: Text): Option<Text> {
    if s == "" then Some("")
    else if s[0] != '%' then
      match Unescape(s[1..])
      case Some(t) => Some([s[0]] + t)
      case None => None
    else if |s| < 3 || HexValue(s[1]).None? || HexValue(s[2]).None? then None
    else
      match Unescape(s[3..])
      case Some(t) => Some([(16 * HexValue(s[1]).value + HexValue(s[2]).value) as char] + t)
      case None => None
  }

  /** JoinPath's treatment of one segment: the dot segments are escaped entirely. */
  function EscapeSegment(s: Text): Text {
    if s == "." then "%2E" else if s == ".." then "%2E%2E" else Escape(s)
  }

  function EscapedAll(segments: seq<Text>): (parts: seq<Text>)
    ensures |parts| == |segments|
    ensures forall i | 0 <= i < |parts| :: parts[i] == EscapeSegment(segments[i])
  {
    seq(|segments|, i requires 0 <= i < |segments| => EscapeSegment(segments[i]))
  }

  function PathOf(segments: seq<Text>): Text { Join(EscapedAll(segments)) }

  /** JoinPath: the escaped segments are collected in a slice, then joined. */
  method JoinPath(segments: seq<Text>) returns (path: Text)
    ensures path == PathOf(segments)
  {
    var escaped := new Text[|segments|](_ => "");
    for i := 0 to |segments|
      invariant forall j | 0 <= j < i :: escaped[j] == EscapeSegment(segments[j])
    {
      var s := segments[i];
      if s == "." {
        escaped[i] := "%2E";
      } else if s == ".." {
        escaped[i] := "%2E%2E";
      } else {
        escaped[i] := Escape(s);
      }
    }
    assert escaped[..] == EscapedAll(segments);
    path := Join(escaped[..]);
  }

  // ----- escaping is faithful

  lemma HexRoundTrip(d: int)
    requires 0 <= d < 16
    ensures HexValue(HexDigit(d)) == Some(d)
  {
  }

  lemma UnescapeKept(c: octet, t: Text)
    requires Kept(c) && Unescape(t).Some?
    ensures Unescape([c] + t) == Some([c] + Unescape(t).value)
  {
    assert ([c] + t)[1..] == t;
  }

  lemma UnescapeHex(c: octet, h: octet, l: octet, t: Text)
    requires Unescape(t).Some?
    requires HexValue(h) == Some(c as int / 16) && HexValue(l) == Some(c as int % 16)
    ensures Unescape(['%', h, l] + t) == Some([c] + Unescape(t).value)
  {
    var e: Text := ['%', h, l] + t;
    assert e[0] == '%' && e[1] == h && e[2] == l && e[3..] == t;
    assert 16 * (c as int / 16) + c as int % 16 == c as int;
  }

  lemma UnescapeByte(c: octet, t: Text)
    requires Unescape(t).Some?
    ensures Unescape(EscapeByte(c) + t) == Some([c] + Unescape(t).value)
  {
    if Kept(c) {
      UnescapeKept(c, t);
    } else {
      HexRoundTrip(c as int / 16);
      HexRoundTrip(c as int % 16);
      UnescapeHex(c, HexDigit(c as int / 16), HexDigit(c as int % 16), t);
    }
  }

  lemma {:induction false} UnescapeEscape(s: Text)
    ensures Unescape(Escape(s)) == Some(s)
  {
    if s != "" {
      UnescapeEscape(s[1..]);
      UnescapeByte(s[0], Escape(s[1..]));
      assert s == [s[0]] + s[1..];
    }
  }

  /** The characters section 3.3 of RFC 3986 allows in a segment (pchar), percent signs of escapes included. */
  predicate SegmentChar(c: char) {
    || 'a' <= c <= 'z' || 'A' <= c <= 'Z' || '0' <= c <= '9'
    || c in {'-', '.', '_', '~'}                                            // unreserved
    || c in {'!', '$', '&', '\'', '(', ')', '*', '+', ',', ';', '='}        // sub-delims
    || c == ':' || c == '@' || c == '%'
  }

  predicate Safe(s: Text) { forall c | c in s :: SegmentChar(c) }

  /** The bytes that pass unescaped: letters, digits and ten others. Any other byte becomes an escape. */
  lemma EscapesIff(c: octet)
    ensures EscapeByte(c) == [c] <==>
            || 'a' <= c <= 'z' || 'A' <= c <= 'Z' || '0' <= c <= '9'
            || c in {'-', '_', '.', '~', '$', '&', '+', ':', '=', '@'}
    ensures EscapeByte(c) != [c] ==>
              && |EscapeByte(c)| == 3 && EscapeByte(c)[0] == '%'
              && EscapeByte(c)[1] in "0123456789ABCDEF" && EscapeByte(c)[2] in "0123456789ABCDEF"
  {
    assert |EscapeByte(c)| == 3 ==> EscapeByte(c) != [c];
  }

  lemma {:induction false} EscapeShort(s: Text)
    requires forall i | 0 <= i < |s| :: 'a' <= s[i] <= 'z'
    ensures Escape(s) == s
  {
    if s != "" {
      EscapeShort(s[1..]);
      assert s == [s[0]] + s[1..];
    }
  }

  lemma EscapeStep(c: octet, t: Text)
    ensures Escape([c] + t) == EscapeByte(c) + Escape(t)
  {
    assert ([c] + t)[1..] == t;
  }

  lemma EscapedQuestion()
    ensures Escape("a?b") == "a%3Fb"
  {
    EscapeShort("b");
    EscapeStep('?', "b");
    EscapeStep('a', ['?'] + "b");
    assert ['a'] + (['?'] + "b") == "a?b";
    assert EscapeByte('?') == "%3F";
  }

  /** An id with a question mark stays one segment. */
  lemma EscapedExample()
    ensures PathOf(["plans", "a?b", "user"]) == "plans/a%3Fb/user"
  {
    EscapeShort("plans");
    EscapeShort("user");
    EscapedQuestion();
    var parts := ExampleParts();
    JoinThree(parts);
    ExampleText();
  }

  lemma ExampleParts() returns (parts: seq<Text>)
    ensures parts == EscapedAll(["plans", "a?b", "user"])
    ensures |parts| == 3 && parts[0] == Escape("plans") && parts[1] == Escape("a?b") && parts[2] == Escape("user")
  {
    parts := ThreeEscaped("plans", "a?b", "user");
  }

  lemma ThreeEscaped(a: Text, b: Text, c: Text) returns (parts: seq<Text>)
    requires |a| > 2 && |b| > 2 && |c| > 2
    ensures parts == EscapedAll([a, b, c])
    ensures |parts| == 3 && parts[0] == Escape(a) && parts[1] == Escape(b) && parts[2] == Escape(c)
  {
    parts := EscapedAll([a, b, c]);
    NoDots(a);
    NoDots(b);
    NoDots(c);
  }

  lemma NoDots(s: Text)
    requires |s| > 2
    ensures EscapeSegment(s) == Escape(s)
  {
  }

  lemma ExampleText()
    ensures "plans" + "/" + ("a%3Fb" + "/" + "user") == "plans/a%3Fb/user"
  {
  }

  lemma JoinThree(parts: seq<Text>)
    requires |parts| == 3
    ensures Join(parts) == parts[0] + "/" + (parts[1] + "/" + parts[2])
  {
    assert parts[1..][1..] == [parts[2]];
    assert Join(parts[1..]) == parts[1] + "/" + parts[2];
    assert parts[0] + "/" + (parts[1] + "/" + parts[2]) == parts[0] + "/" + Join(parts[1..]);
  }

  lemma {:induction false} EscapeSafe(s: Text)
    ensures Safe(Escape(s))
  {
    if s != "" { EscapeSafe(s[1..]); }
  }

  lemma EscapeLength(s: Text)
    ensures |Escape(s)| >= |s|
    ensures (Escape(s) == "" <==> s == "")
  {
  }

  /**
   * An escaped segment decodes to the original, holds no byte that could end or split a path, is no
   * dot segment, and is empty only for the empty segment.
   */
  lemma SegmentFaithful(s: Text)
    ensures Unescape(EscapeSegment(s)) == Some(s)
    ensures Safe(EscapeSegment(s)) && SlashFree(EscapeSegment(s))
    ensures forall c | c in EscapeSegment(s) :: c != '/' && c != '?' && c != '#'
    ensures EscapeSegment(s) != "." && EscapeSegment(s) != ".."
    ensures EscapeSegment(s) == "" <==> s == ""
  {
    if s == "." || s == ".." {
      DotsDecode();
      DotsSafe();
    } else {
      OtherSegment(s);
    }
    NoDelimiter(EscapeSegment(s));
  }

  lemma NoDelimiter(t: Text)
    requires Safe(t)
    ensures forall c | c in t :: c != '/' && c != '?' && c != '#'
  {
  }

  lemma DotsSafe()
    ensures Safe("%2E") && SlashFree("%2E") && Safe("%2E%2E") && SlashFree("%2E%2E")
  {
  }

  lemma OtherSegment(s: Text)
    requires s != "." && s != ".."
    ensures Unescape(Escape(s)) == Some(s) && Safe(Escape(s)) && SlashFree(Escape(s))
    ensures Escape(s) != "." && Escape(s) != ".." && (Escape(s) == "" <==> s == "")
  {
    UnescapeEscape(s);
    EscapeSafe(s);
    EscapeLength(s);
    NotDots(s);
  }

  lemma DotsDecode()
    ensures Unescape("%2E") == Some(".") && Unescape("%2E%2E") == Some("..")
    ensures Unescape(".") == Some(".") && Unescape("..") == Some("..")
  {
    var one: Text, two: Text := "%2E", "%2E%2E";
    assert one[3..] == "" && two[3..] == one;
    assert (16 * 2 + 14) as char == '.';
    var dot: Text, dots: Text := ".", "..";
    assert dot[1..] == "" && dots[1..] == dot;
    assert Unescape(dot) == Some(['.'] + "");
    assert ['.'] + "" == dot && ['.'] + dot == dots;
  }

  lemma NotDots(s: Text)
    requires s != "." && s != ".."
    ensures Escape(s) != "." && Escape(s) != ".."
  {
    UnescapeEscape(s);
    DotsDecode();
  }

  /** Splitting a path and decoding the pieces gives back the segments it was built from. */
  lemma RouteRoundTrip(segments: seq<Text>)
    requires segments != []
    ensures Split(PathOf(segments)) == EscapedAll(segments)
    ensures forall i | 0 <= i < |segments| :: Unescape(Split(PathOf(segments))[i]) == Some(segments[i])
    ensures forall part | part in Split(PathOf(segments)) :: part != "." && part != ".."
  {
    var parts := EscapedAll(segments);
    forall i | 0 <= i < |segments|
      ensures Unescape(parts[i]) == Some(segments[i]) && SlashFree(parts[i]) && parts[i] != "." && parts[i] != ".."
    {
      SegmentFaithful(segments[i]);
    }
    SplitJoin(parts);
  }

  /** Two segment lists share a path only if they are the same list. */
  lemma PathInjective(a: seq<Text>, b: seq<Text>)
    requires a != [] && b != [] && PathOf(a) == PathOf(b)
    ensures a == b
  {
    RouteRoundTrip(a);
    RouteRoundTrip(b);
    assert |a| == |b|;
    forall i | 0 <= i < |a| ensures a[i] == b[i] {
      assert Some(a[i]) == Unescape(Split(PathOf(a))[i]) == Some(b[i]);
    }
  }

  // ----- the guard in do

  predicate HasDoubleSlash(path: Text) {
    exists i :: 0 <= i < |path| - 1 && path[i] == '/' && path[i + 1] == '/'
  }

  /** do's test: the path is empty, ends in a slash, or contains two in a row. */
  predicate GuardFires(path: Text) {
    path == "" || path[|path| - 1] == '/' || HasDoubleSlash(path)
  }

  lemma {:induction false} GuardOfJoin(parts: seq<Text>)
    requires parts != [] && forall p | p in parts :: SlashFree(p)
    ensures GuardFires(Join(parts)) <==> parts == [""] || exists i :: 1 <= i < |parts| && parts[i] == ""
  {
    assert parts[0] in parts;
    if |parts| > 1 {
      var rest := Join(parts[1..]);
      GuardOfJoin(parts[1..]);
      GuardStep(parts[0], rest);
      RestStartsWithSlash(parts[1..]);
      assert (exists i :: 1 <= i < |parts| && parts[i] == "") <==>
             parts[1] == "" || exists i :: 1 <= i < |parts[1..]| && parts[1..][i] == "" by {
        if i :| 2 <= i < |parts| && parts[i] == "" { assert parts[1..][i - 1] == ""; }
        if i :| 1 <= i < |parts[1..]| && parts[1..][i] == "" { assert parts[i + 1] == ""; }
      }
    }
  }

  lemma RestStartsWithSlash(parts: seq<Text>)
    requires parts != [] && forall p | p in parts :: SlashFree(p)
    ensures var s := Join(parts);
            parts[0] == "" <==> s == "" || s[0] == '/'
  {
    assert parts[0] in parts;
    if parts[0] != "" { assert Join(parts)[0] == parts[0][0]; }
  }

  lemma DoubleSlashStep(first: Text, rest: Text)
    requires SlashFree(first)
    ensures HasDoubleSlash(first + "/" + rest) <==> rest != "" && (rest[0] == '/' || HasDoubleSlash(rest))
  {
    var path, n := first + "/" + rest, |first|;
    assert path[n] == '/' && (forall k | 0 <= k < |rest| :: path[n + 1 + k] == rest[k]);
    assert forall k | 0 <= k < n :: path[k] == first[k];
    if HasDoubleSlash(path) {
      var i :| 0 <= i < |path| - 1 && path[i] == '/' && path[i + 1] == '/';
      if i > n { assert rest[i - n - 1] == '/' && rest[i - n - 1 + 1] == '/'; }
    }
    if rest != "" && rest[0] == '/' { assert path[n + 1] == '/'; }
    if HasDoubleSlash(rest) {
      var i :| 0 <= i < |rest| - 1 && rest[i] == '/' && rest[i + 1] == '/';
      assert path[n + 1 + i] == '/' && path[n + 1 + i + 1] == '/';
    }
  }

  lemma GuardStep(first: Text, rest: Text)
    requires SlashFree(first)
    ensures GuardFires(first + "/" + rest) <==> rest == "" || rest[0] == '/' || GuardFires(rest)
  {
    var path := first + "/" + rest;
    DoubleSlashStep(first, rest);
    assert path[|path| - 1] == if rest == "" then '/' else rest[|rest| - 1];
  }

  /**
   * The guard fires exactly when a segment after the first is empty, or nothing but an empty
   * segment is there. An empty first segment alone goes unnoticed when others follow.
   */
  lemma GuardIff(segments: seq<Text>)
    ensures GuardFires(PathOf(segments)) <==>
            segments == [] || segments == [""] || exists i :: 1 <= i < |segments| && segments[i] == ""
  {
    if segments != [] {
      var parts := EscapedAll(segments);
      forall i | 0 <= i < |segments| ensures SlashFree(parts[i]) && (parts[i] == "" <==> segments[i] == "") {
        SegmentFaithful(segments[i]);
      }
      GuardOfJoin(parts);
      assert parts == [""] <==> segments == [""];
    }
  }
}
