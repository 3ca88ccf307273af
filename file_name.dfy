// Destination file name of a download: the text after the last '/' of the URL, decoded as
// a query component (Go's url.QueryUnescape: "%XX" escapes as in section 2.1 of RFC 3986,
// '+' as a space), or the raw text when an escape is malformed.
//
// A Go string is a sequence of bytes; here each char of a `string` stands for one byte.

module FileName {

  import opened Options

  /** The last element of strings.Split(url, "/"): everything after the last '/', or the
      whole text when there is none. */
  function LastSegment(url: string): (seg: string)
    ensures |seg| <= |url| && seg == url[|url| - |seg|..]
    ensures '/' !in seg
    ensures |seg| == |url| || url[|url| - |seg| - 1] == '/'
  {
    if url == [] then []
    else if url[|url| - 1] == '/' then []
    else LastSegment(url[..|url| - 1]) + [url[|url| - 1]]
  }

  predicate IsHex(c: char) { '0' <= c <= '9' || 'a' <= c <= 'f' || 'A' <= c <= 'F' }

  function HexValue(c: char): (d: nat)
    requires IsHex(c)
    ensures d < 16
  {
    if '0' <= c <= '9' then (c as int) - ('0' as int)
    else if 'a' <= c <= 'f' then (c as int) - ('a' as int) + 10
    else (c as int) - ('A' as int) + 10
  }

  /** The byte written for the escape "%hl". */
  function EscapedByte(h: char, l: char): char
    requires IsHex(h) && IsHex(l)
  {
    (HexValue(h) * 16 + HexValue(l)) as char
  }

  /** Every '%' is followed by two hexadecimal digits: the condition under which
      url.QueryUnescape succeeds. */
  predicate WellEscaped(s: string)
  {
    forall i :: 0 <= i < |s| && s[i] == '%' ==> i + 2 < |s| && IsHex(s[i + 1]) && IsHex(s[i + 2])
  }

  /** url.QueryUnescape(s): None is the EscapeError the source receives. Decoding never
      lengthens the text. */
  function QueryUnescape(s: string): (r: Option<string>)
    ensures r.Some? ==> |r.value| <= |s|
    decreases |s|
  {
    if s == [] then Some([])
    else if s[0] == '%' then
      if |s| < 3 || !IsHex(s[1]) || !IsHex(s[2]) then None
      else match QueryUnescape(s[3..])
        case None => None
        case Some(t) => Some([EscapedByte(s[1], s[2])] + t)
    else match QueryUnescape(s[1..])
      case None => None
      case Some(t) => Some([if s[0] == '+' then ' ' else s[0]] + t)
  }

  /** extractFileName: the decoded last segment, or the raw last segment when decoding fails.
      The name is never longer than that segment, so never longer than the URL. */
  function ExtractFileName(url: string): (name: string)
    ensures |name| <= |LastSegment(url)| <= |url|
  {
    var seg := LastSegment(url);
    match QueryUnescape(seg)
    case None => seg
    case Some(decoded) => decoded
  }

  /** Decoding succeeds exactly on well-escaped text, in both directions. */
  lemma {:induction false} QueryUnescapeSucceedsIff(s: string)
    ensures QueryUnescape(s).Some? <==> WellEscaped(s)
    decreases |s|
  {
    if s == [] {
    } else if s[0] == '%' {
      if |s| < 3 || !IsHex(s[1]) || !IsHex(s[2]) {
        assert !WellEscaped(s) by { assert s[0] == '%'; }
      } else {
        QueryUnescapeSucceedsIff(s[3..]);
        forall i | 0 <= i < |s[3..]| && s[3..][i] == '%'
          ensures WellEscaped(s) ==> i + 2 < |s[3..]| && IsHex(s[3..][i + 1]) && IsHex(s[3..][i + 2])
        {
          assert s[i + 3] == '%';
        }
        if WellEscaped(s[3..]) {
          forall i | 0 <= i < |s| && s[i] == '%'
            ensures i + 2 < |s| && IsHex(s[i + 1]) && IsHex(s[i + 2])
          {
            if i >= 3 { assert s[3..][i - 3] == '%'; }
          }
        }
      }
    } else {
      QueryUnescapeSucceedsIff(s[1..]);
      forall i | 0 <= i < |s[1..]| && s[1..][i] == '%'
        ensures WellEscaped(s) ==> i + 2 < |s[1..]| && IsHex(s[1..][i + 1]) && IsHex(s[1..][i + 2])
      {
        assert s[i + 1] == '%';
      }
      if WellEscaped(s[1..]) {
        forall i | 0 <= i < |s| && s[i] == '%'
          ensures i + 2 < |s| && IsHex(s[i + 1]) && IsHex(s[i + 2])
        {
          assert i >= 1 && s[1..][i - 1] == '%';
        }
      }
    }
  }

  /** The name is the decoded segment when the segment is well escaped, and the raw segment
      otherwise. */
  lemma ExtractFileNameCases(url: string)
    ensures var seg := LastSegment(url);
      && (WellEscaped(seg) ==> QueryUnescape(seg) == Some(ExtractFileName(url)))
      && (!WellEscaped(seg) ==> ExtractFileName(url) == seg)
  {
    QueryUnescapeSucceedsIff(LastSegment(url));
  }

  /** Text with no '%' and no '+' decodes to itself. */
  lemma {:induction false} PlainTextUnchanged(s: string)
    requires '%' !in s && '+' !in s
    ensures QueryUnescape(s) == Some(s)
    decreases |s|
  {
    if s != [] {
      assert '%' !in s[1..] && '+' !in s[1..] by {
        forall c | c in s[1..] ensures c in s { }
      }
      PlainTextUnchanged(s[1..]);
      assert [s[0]] + s[1..] == s;
    }
  }

  // ---- url.QueryEscape, the inverse the decoder is checked against ----

  const UpperHex: string := "0123456789ABCDEF"

  /** Bytes url.QueryEscape leaves alone: ASCII letters, digits and "-_.~". */
  predicate IsUnreserved(c: char)
  {
    'a' <= c <= 'z' || 'A' <= c <= 'Z' || '0' <= c <= '9' || c == '-' || c == '_' || c == '.' || c == '~'
  }

  function EscapeByte(c: char): (e: string)
    requires c as int < 256
  {
    if IsUnreserved(c) then [c]
    else if c == ' ' then "+"
    else ['%', UpperHex[c as int / 16], UpperHex[c as int % 16]]
  }

  predicate IsByteString(s: string) { forall i :: 0 <= i < |s| ==> s[i] as int < 256 }

  /** url.QueryEscape: escapes a byte string so that it can be placed in a query. */
  function QueryEscape(s: string): (e: string)
    requires IsByteString(s)
  {
    if s == [] then [] else EscapeByte(s[0]) + QueryEscape(s[1..])
  }

  lemma UpperHexDigit(d: nat)
    requires d < 16
    ensures IsHex(UpperHex[d]) && HexValue(UpperHex[d]) == d
  {
  }

  /** Decoding one escaped byte in front of decodable text. */
  lemma UnescapeEscapedByte(c: char, rest: string)
    requires c as int < 256
    requires QueryUnescape(rest).Some?
    ensures QueryUnescape(EscapeByte(c) + rest) == Some([c] + QueryUnescape(rest).value)
  {
    var e := EscapeByte(c) + rest;
    if IsUnreserved(c) {
      assert e[1..] == rest;
    } else if c == ' ' {
      assert e[1..] == rest;
    } else {
      var h, l := c as int / 16, c as int % 16;
      UpperHexDigit(h);
      UpperHexDigit(l);
      assert e[3..] == rest;
      assert EscapedByte(e[1], e[2]) == c;
    }
  }

  /** Round trip: decoding what url.QueryEscape produced gives back the original bytes. */
  lemma {:induction false} QueryEscapeRoundTrip(s: string)
    requires IsByteString(s)
    ensures QueryUnescape(QueryEscape(s)) == Some(s)
    decreases |s|
  {
    if s != [] {
      QueryEscapeRoundTrip(s[1..]);
      UnescapeEscapedByte(s[0], QueryEscape(s[1..]));
      assert [s[0]] + s[1..] == s;
    }
  }

  /** Whatever precedes the last '/' does not matter. */
  lemma {:induction false} LastSegmentAfterSlash(dir: string, seg: string)
    requires '/' !in seg
    ensures LastSegment(dir + "/" + seg) == seg
    decreases |seg|
  {
    var u := dir + "/" + seg;
    if seg == [] {
      assert u[|u| - 1] == '/';
    } else {
      var init := seg[..|seg| - 1];
      assert '/' !in init by { forall c | c in init ensures c in seg { } }
      assert u[..|u| - 1] == dir + "/" + init;
      LastSegmentAfterSlash(dir, init);
      assert init + [seg[|seg| - 1]] == seg;
    }
  }

  /** A text with no '/' is its own last segment. */
  lemma {:induction false} LastSegmentNoSlash(url: string)
    requires '/' !in url
    ensures LastSegment(url) == url
    decreases |url|
  {
    if url != [] {
      var init := url[..|url| - 1];
      assert '/' !in init by { forall c | c in init ensures c in url { } }
      LastSegmentNoSlash(init);
      assert init + [url[|url| - 1]] == url;
    }
  }

  /** Decoding a byte that does not start an escape, in front of decodable text. */
  lemma UnescapeCons(c: char, rest: string)
    requires c != '%' && QueryUnescape(rest).Some?
    ensures QueryUnescape([c] + rest) == Some([if c == '+' then ' ' else c] + QueryUnescape(rest).value)
  {
    assert ([c] + rest)[1..] == rest;
  }

  /** Decoding an escape "%hl" in front of decodable text. */
  lemma UnescapeEscape(h: char, l: char, rest: string)
    requires IsHex(h) && IsHex(l) && QueryUnescape(rest).Some?
    ensures QueryUnescape(['%', h, l] + rest) == Some([EscapedByte(h, l)] + QueryUnescape(rest).value)
  {
    assert (['%', h, l] + rest)[3..] == rest;
  }

  /** Text that decodes to itself and has no '/': no '%', no '+'. */
  predicate Plain(s: string)
  {
    '%' !in s && '+' !in s && '/' !in s
  }

  /** Plain text in front of decodable text decodes to itself. */
  lemma {:induction false} UnescapePlainPrefix(plain: string, rest: string)
    requires '%' !in plain && '+' !in plain && QueryUnescape(rest).Some?
    ensures QueryUnescape(plain + rest) == Some(plain + QueryUnescape(rest).value)
    decreases |plain|
  {
    if plain != [] {
      var c, tail := plain[0], plain[1..];
      var decoded := QueryUnescape(rest).value;
      assert '%' !in tail && '+' !in tail by {
        forall x | x in tail ensures x in plain { }
      }
      UnescapePlainPrefix(tail, rest);
      calc {
        QueryUnescape(plain + rest);
        == { assert plain + rest == [c] + (tail + rest); }
        QueryUnescape([c] + (tail + rest));
        == { UnescapeCons(c, tail + rest); }
        Some([c] + (tail + decoded));
        == { assert [c] + (tail + decoded) == plain + decoded; }
        Some(plain + decoded);
      }
    } else {
      assert plain + rest == rest && plain + QueryUnescape(rest).value == QueryUnescape(rest).value;
    }
  }

  /** "%20" between plain texts decodes to a space. */
  lemma QueryUnescapeEscapedSpace(before: string, after: string)
    requires Plain(before) && Plain(after)
    ensures QueryUnescape(before + "%20" + after) == Some(before + " " + after)
  {
    PlainTextUnchanged(after);
    UnescapeEscape('2', '0', after);
    assert EscapedByte('2', '0') == ' ';
    assert "%20" + after == ['%', '2', '0'] + after;
    UnescapePlainPrefix(before, "%20" + after);
    assert before + "%20" + after == before + ("%20" + after);
    assert before + " " + after == before + ([' '] + after);
  }

  /** '+' between plain texts decodes to a space, as in a query component. */
  lemma QueryUnescapePlus(before: string, after: string)
    requires Plain(before) && Plain(after)
    ensures QueryUnescape(before + "+" + after) == Some(before + " " + after)
  {
    PlainTextUnchanged(after);
    UnescapeCons('+', after);
    assert "+" + after == ['+'] + after;
    UnescapePlainPrefix(before, "+" + after);
    assert before + "+" + after == before + ("+" + after);
    assert before + " " + after == before + ([' '] + after);
  }

  /** A separator-free text around one more separator-free piece has no '/'. */
  lemma NoSlashAround(before: string, middle: string, after: string)
    requires '/' !in before && '/' !in middle && '/' !in after
    ensures '/' !in before + middle + after
  {
    var s := before + middle + after;
    forall i | 0 <= i < |s| ensures s[i] != '/' {
      if i < |before| {
        assert s[i] == before[i];
      } else if i < |before| + |middle| {
        assert s[i] == middle[i - |before|];
      } else {
        assert s[i] == after[i - |before| - |middle|];
      }
    }
  }

  /** The percent-encoded space: ".../a%20b.zip" is saved as "a b.zip". */
  lemma ExtractFileNameEscapedSpace(site: string, before: string, after: string)
    requires Plain(before) && Plain(after)
    ensures ExtractFileName(site + "/" + before + "%20" + after) == before + " " + after
  {
    var seg := before + "%20" + after;
    NoSlashAround(before, "%20", after);
    LastSegmentAfterSlash(site, seg);
    assert site + "/" + before + "%20" + after == site + "/" + seg;
    QueryUnescapeEscapedSpace(before, after);
  }

  /** A '+' in the file name is saved as a space: ".../a+b.zip" is saved as "a b.zip". */
  lemma ExtractFileNamePlus(site: string, before: string, after: string)
    requires Plain(before) && Plain(after)
    ensures ExtractFileName(site + "/" + before + "+" + after) == before + " " + after
  {
    var seg := before + "+" + after;
    NoSlashAround(before, "+", after);
    LastSegmentAfterSlash(site, seg);
    assert site + "/" + before + "+" + after == site + "/" + seg;
    QueryUnescapePlus(before, after);
  }

  /** A '%' that does not start an escape keeps the raw segment. */
  lemma ExtractFileNameMalformed(site: string)
    ensures ExtractFileName(site + "/100%.zip") == "100%.zip"
  {
    LastSegmentAfterSlash(site, "100%.zip");
    assert site + "/100%.zip" == site + "/" + "100%.zip";
    assert !WellEscaped("100%.zip") by { assert "100%.zip"[3] == '%' && !IsHex("100%.zip"[5]); }
    QueryUnescapeSucceedsIff("100%.zip");
  }
}
