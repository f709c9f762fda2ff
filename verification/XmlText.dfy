/**
  Strings and entities of mxml/mxml.c. A string stands for the characters of a C string before its NUL. The five
  predefined entities are those of section 4.6 of XML 1.0.
*/
module XmlText {

  predicate IsSpace(c: char) { c == ' ' || 9 as char <= c <= 13 as char }

  /** What strlcpy leaves in a buffer of n characters. */
  function Cut(s: string, n: nat): string
    requires n > 0
  {
    if |s| < n then s else s[..n - 1]
  }

  /** The number of leading characters that satisfy a test. */
  function Span(s: string, p: char -> bool): (k: nat)
    ensures k <= |s| && (k < |s| ==> !p(s[k]))
    ensures forall i :: 0 <= i < k ==> p(s[i])
  {
    if s == "" || !p(s[0]) then 0 else 1 + Span(s[1..], p)
  }

  lemma {:induction false} SpanStops(a: string, b: string, p: char -> bool)
    requires forall i :: 0 <= i < |a| ==> p(a[i])
    requires b == "" || !p(b[0])
    ensures Span(a + b, p) == |a| && (a + b)[|a|..] == b && (a + b)[..|a|] == a
  {
    if a == "" {
      assert a + b == b;
    } else {
      assert (a + b)[1..] == a[1..] + b;
      SpanStops(a[1..], b, p);
    }
  }

  /** Moves over the characters that satisfy the test. */
  method ScanWhile(buf: string, start: nat, p: char -> bool) returns (end: nat)
    requires start <= |buf|
    ensures start <= end <= |buf| && end - start == Span(buf[start..], p)
  {
    end := start;
    while end < |buf| && p(buf[end])
      invariant start <= end <= |buf|
      invariant end - start + Span(buf[end..], p) == Span(buf[start..], p)
    {
      assert buf[end..][1..] == buf[end + 1..];
      end := end + 1;
    }
  }

  function Entity(c: char, translate: bool): string {
    if c == '<' then "&lt;"
    else if c == '&' then "&amp;"
    else if translate && c == '>' then "&gt;"
    else if translate && c == '"' then "&quot;"
    else if translate && c == '\'' then "&apos;"
    else [c]
  }

  function Encoding(s: string, translate: bool): string {
    if s == "" then "" else Entity(s[0], translate) + Encoding(s[1..], translate)
  }

  lemma Regroup(a: string, b: string, c: string)
    ensures a + (b + c) == (a + b) + c
  {
  }

  lemma {:induction false} EncodingAppend(a: string, b: string, translate: bool)
    ensures Encoding(a + b, translate) == Encoding(a, translate) + Encoding(b, translate)
  {
    hide Entity;
    if a == "" {
      assert a + b == b;
    } else {
      EncodingAppend(a[1..], b, translate);
      assert (a + b)[1..] == a[1..] + b;
      Regroup(Entity(a[0], translate), Encoding(a[1..], translate), Encoding(b, translate));
    }
  }

  lemma EncodingExtend(s: string, k: nat, translate: bool)
    requires k < |s|
    ensures Encoding(s[..k + 1], translate) == Encoding(s[..k], translate) + Entity(s[k], translate)
  {
    hide Entity;
    assert s[..k + 1] == s[..k] + [s[k]];
    EncodingAppend(s[..k], [s[k]], translate);
    assert Encoding([s[k]], translate) == Entity(s[k], translate) + "";
  }

  /** How many characters are encoded, when this many are written already, before the buffer counts as full. */
  function Kept(s: string, written: nat, size: nat, translate: bool): (k: nat)
    ensures k <= |s|
  {
    if s == "" || (size >= 10 && written >= size - 10) then 0
    else 1 + Kept(s[1..], written + |Entity(s[0], translate)|, size, translate)
  }

  /** What encoding leaves in a buffer of the given size. */
  function Encoded(s: string, size: nat, translate: bool): string
    requires size > 0
  {
    Cut(Encoding(s[..Kept(s, 0, size, translate)], translate), size)
  }

  /** The whole string is encoded. */
  predicate Fits(s: string, size: nat, translate: bool) {
    s == "" || |Encoding(s[..|s| - 1], translate)| < size - 10
  }

  /**
    Encodes into a scratch buffer and copies the result back over the argument. The guard compares unsigned numbers,
    so that it never ends the loop when the size is below 10.
  */
  method Encode(src: string, size: nat, translate: bool) returns (r: string)
    requires size > 0
    ensures r == Encoded(src, size, translate)
  {
    hide Encoding;
    EncodingEmpty(translate);
    var ps, pd := 0, "";
    assert src[..0] == "" && src[0..] == src;
    while ps < |src| && (size < 10 || |pd| < size - 10)
      invariant ps <= |src| && pd == Encoding(src[..ps], translate)
      invariant ps + Kept(src[ps..], |pd|, size, translate) == Kept(src, 0, size, translate)
    {
      ghost var before := pd;
      assert src[ps..][1..] == src[ps + 1..];
      EncodingExtend(src, ps, translate);
      if translate {
        match src[ps]
        case '<' => pd := pd + "&lt;";
        case '>' => pd := pd + "&gt;";
        case '&' => pd := pd + "&amp;";
        case '"' => pd := pd + "&quot;";
        case '\'' => pd := pd + "&apos;";
        case c => pd := pd + [c];
      } else {
        match src[ps]
        case '<' => pd := pd + "&lt;";
        case '&' => pd := pd + "&amp;";
        case c => pd := pd + [c];
      }
      assert pd == before + Entity(src[ps], translate);
      ps := ps + 1;
    }
    assert src[..ps] == src[..Kept(src, 0, size, translate)];
    r := Cut(pd, size);
  }

  lemma {:induction false} KeptBounds(s: string, written: nat, size: nat, translate: bool)
    requires size >= 10
    ensures var k := Kept(s, written, size, translate);
            && (k == 0 || written + |Encoding(s[..k], translate)| <= size - 5)
            && (k < |s| ==> written + |Encoding(s[..k], translate)| >= size - 10)
            && (k > 0 ==> written + |Encoding(s[..k - 1], translate)| < size - 10)
  {
    var k := Kept(s, written, size, translate);
    if k > 0 {
      var first := Entity(s[0], translate);
      KeptBounds(s[1..], written + |first|, size, translate);
      assert s[..k][1..] == s[1..][..k - 1];
      if k > 1 {
        assert s[..k - 1][1..] == s[1..][..k - 2];
      }
    }
  }

  lemma {:induction false} EncodingGrows(s: string, k: nat, translate: bool)
    requires k <= |s|
    ensures |Encoding(s[..k], translate)| <= |Encoding(s, translate)|
  {
    EncodingAppend(s[..k], s[k..], translate);
    assert s == s[..k] + s[k..];
  }

  lemma EncodingStrictlyGrows(s: string, k: nat, translate: bool)
    requires k < |s|
    ensures |Encoding(s[..k], translate)| < |Encoding(s, translate)|
  {
    EncodingExtend(s, k, translate);
    EncodingGrows(s, k + 1, translate);
  }

  lemma EncodingEmpty(translate: bool)
    ensures Encoding("", translate) == ""
  {
  }

  /** r is the encoding of some prefix of s: no entity of it is cut. */
  ghost predicate EncodesPrefix(r: string, s: string, translate: bool) {
    exists k :: 0 <= k <= |s| && r == Encoding(s[..k], translate)
  }

  lemma EncodedIsKept(s: string, size: nat, translate: bool)
    requires size >= 10
    ensures var k := Kept(s, 0, size, translate); var e := Encoding(s[..k], translate);
            && Encoded(s, size, translate) == e && |e| < size
            && (k < |s| ==> |e| >= size - 10)
            && (k > 0 ==> |Encoding(s[..k - 1], translate)| < size - 10)
  {
    hide Encoding;
    KeptBounds(s, 0, size, translate);
    EncodingEmpty(translate);
    assert s[..0] == "";
  }

  /** With a buffer of 10 or more no entity is cut, and all is encoded exactly when it fits. */
  lemma EncodedWithinSize(s: string, size: nat, translate: bool)
    requires size >= 10
    ensures EncodesPrefix(Encoded(s, size, translate), s, translate) && |Encoded(s, size, translate)| < size
    ensures Encoded(s, size, translate) == Encoding(s, translate) <==> Fits(s, size, translate)
  {
    hide Encoding, Encoded, Kept;
    var k := Kept(s, 0, size, translate);
    EncodedIsKept(s, size, translate);
    if k < |s| {
      EncodingGrows(s[..|s| - 1], k, translate);
      assert s[..|s| - 1][..k] == s[..k];
      EncodingStrictlyGrows(s, k, translate);
    } else {
      assert s[..k] == s;
    }
  }

  /** A string whose encoding a buffer of the given size cuts inside an entity. */
  function CutExample(size: nat): string {
    if size <= 4 then "<" else if size == 5 then "&" else if size <= 8 then "<<" else "&&"
  }

  lemma CutExampleIsCut(size: nat, translate: bool)
    requires 2 <= size < 10
    ensures !EncodesPrefix(Encoded(CutExample(size), size, translate), CutExample(size), translate)
  {
    var s := CutExample(size);
    if |s| == 1 {
      assert s[..1] == s && Encoding(s, translate) == Entity(s[0], translate) + "";
    } else {
      assert s[1..] == [s[0]] && Encoding(s[1..], translate) == Entity(s[0], translate) + "";
      assert s[..2] == s && s[..1] == s[1..];
      assert Kept(s[1..], |Entity(s[0], translate)|, size, translate) == 1;
    }
    assert Kept(s, 0, size, translate) == |s|;
    var e := Encoded(s, size, translate);
    assert |e| == size - 1;
    forall k | 0 <= k <= |s|
      ensures e != Encoding(s[..k], translate)
    {
      assert k == 0 ==> s[..k] == "";
    }
  }

  /** The sizes for which no input ever has an entity cut. */
  lemma NeverCutIff(size: nat, translate: bool)
    requires size > 0
    ensures (forall s: string :: EncodesPrefix(Encoded(s, size, translate), s, translate)) <==> size == 1 || size >= 10
  {
    if size >= 10 {
      forall s: string
        ensures EncodesPrefix(Encoded(s, size, translate), s, translate)
      {
        EncodedWithinSize(s, size, translate);
      }
    } else if size == 1 {
      forall s: string
        ensures EncodesPrefix(Encoded(s, size, translate), s, translate)
      {
        assert s[..0] == "" && Encoded(s, size, translate) == Encoding(s[..0], translate);
      }
    } else {
      CutExampleIsCut(size, translate);
    }
  }

  /** The character that a nonempty text stands for first, and how much of the text that takes. */
  function First(s: string): (r: (char, nat))
    requires s != ""
    ensures 1 <= r.1 <= |s|
    ensures s[0] != '&' ==> r == (s[0], 1)
  {
    if "&lt;" <= s then ('<', 4)
    else if "&gt;" <= s then ('>', 4)
    else if "&amp;" <= s then ('&', 5)
    else if "&quot;" <= s then ('"', 6)
    else if "&apos;" <= s then ('\'', 6)
    else (s[0], 1)
  }

  function Decoding(s: string): string
    decreases |s|
  {
    if s == "" then "" else [First(s).0] + Decoding(s[First(s).1..])
  }

  lemma {:induction false} DecodingSkips(a: string, b: string)
    requires '&' !in a
    ensures Decoding(a + b) == a + Decoding(b)
  {
    hide First;
    if a == "" {
      assert a + b == b;
    } else {
      DecodingSkips(a[1..], b);
      assert (a + b)[1..] == a[1..] + b && (a + b)[0] != '&';
    }
  }

  /** One entity is replaced in place, or a lone ampersand passed. */
  method Splice(s: string, p: nat) returns (str: string)
    requires p < |s|
    ensures str == s[..p] + [First(s[p..]).0] + s[p..][First(s[p..]).1..]
  {
    if "&lt;" <= s[p..] {
      str := s[..p] + "<" + s[p..][4..];
    } else if "&gt;" <= s[p..] {
      str := s[..p] + ">" + s[p..][4..];
    } else if "&amp;" <= s[p..] {
      str := s[..p] + "&" + s[p..][5..];
    } else if "&quot;" <= s[p..] {
      str := s[..p] + "\"" + s[p..][6..];
    } else if "&apos;" <= s[p..] {
      str := s[..p] + "'" + s[p..][6..];
    } else {
      str := s;
    }
  }

  /** Splices each entity in place, from the left; what has been passed is not looked at again. */
  method Decode(s: string) returns (str: string)
    ensures str == Decoding(s)
  {
    hide First, Decoding;
    str := s;
    var p := 0;
    assert str[..0] == "" && str[0..] == s;
    while true
      invariant p <= |str| && Decoding(s) == str[..p] + Decoding(str[p..])
      decreases |str| - p
    {
      var q := ScanWhile(str, p, c => c != '&');
      DecodingPasses(str, p, q);
      p := q;
      if p == |str| {
        assert Decoding(str[p..]) == "" && str[..p] == str by { DecodingEmpty(); }
        return;
      }
      ghost var was := str;
      str := Splice(str, p);
      DecodingSplices(was, p, str);
      p := p + 1;
    }
  }

  lemma DecodingEmpty()
    ensures Decoding("") == ""
  {
  }

  lemma DecodingPasses(s: string, p: nat, q: nat)
    requires p <= q <= |s| && '&' !in s[p..q]
    ensures s[..p] + Decoding(s[p..]) == s[..q] + Decoding(s[q..])
  {
    hide First, Decoding;
    DecodingSkips(s[p..q], s[q..]);
    assert s[p..] == s[p..q] + s[q..] && s[..q] == s[..p] + s[p..q];
  }

  lemma DecodingSplices(s: string, p: nat, t: string)
    requires p < |s| && t == s[..p] + [First(s[p..]).0] + s[p..][First(s[p..]).1..]
    ensures s[..p] + Decoding(s[p..]) == t[..p + 1] + Decoding(t[p + 1..])
  {
    hide First;
    var (c, n) := First(s[p..]);
    assert t[..p + 1] == s[..p] + [c] && t[p + 1..] == s[p..][n..];
  }

  /** Text that already looks like entities comes back as it was. */
  lemma {:induction false} EncodeRoundTrip(s: string, translate: bool, rest: string)
    ensures Decoding(Encoding(s, translate) + rest) == s + Decoding(rest)
  {
    hide First, Entity;
    if s == "" {
      assert Encoding(s, translate) + rest == rest;
    } else {
      var e, tail := Entity(s[0], translate), Encoding(s[1..], translate) + rest;
      assert Encoding(s, translate) + rest == e + tail;
      assert (e + tail)[|e|..] == tail;
      EncodeRoundTrip(s[1..], translate, rest);
      FirstOfEntity(s[0], translate, tail);
    }
  }

  lemma FirstOfEntity(c: char, translate: bool, rest: string)
    ensures First(Entity(c, translate) + rest) == (c, |Entity(c, translate)|)
  {
    var e := Entity(c, translate);
    assert e <= e + rest;
    if |e| > 1 {
      assert e[1] == (e + rest)[1] && e[2] == (e + rest)[2];
    }
  }

  /** Decoding undoes encoding, up to the prefix that the buffer had room for. */
  lemma BufferRoundTrip(s: string, size: nat, translate: bool)
    requires size >= 10
    ensures Decoding(Encoded(s, size, translate)) <= s
    ensures Decoding(Encoded(s, size, translate)) == s <==> Fits(s, size, translate)
  {
    hide Encoding, Encoded, Kept, Decoding;
    EncodedIsKept(s, size, translate);
    var k := Kept(s, 0, size, translate);
    DecodingEmpty();
    EncodeRoundTrip(s[..k], translate, "");
    assert Encoded(s, size, translate) + "" == Encoded(s, size, translate) && s[..k] + "" == s[..k];
    if k < |s| {
      EncodingGrows(s[..|s| - 1], k, translate);
      assert s[..|s| - 1][..k] == s[..k];
    } else {
      assert s[..k] == s;
    }
  }

  /** The entities are the predefined ones (section 4.6 of XML 1.0), and they stand for their characters. */
  lemma PredefinedEntities(translate: bool)
    ensures Encoding("<", translate) == "&lt;" && Encoding("&", translate) == "&amp;"
    ensures Encoding(">", true) == "&gt;" && Encoding("\"", true) == "&quot;" && Encoding("'", true) == "&apos;"
    ensures Encoding(">", false) == ">" && Encoding("\"", false) == "\"" && Encoding("'", false) == "'"
    ensures Decoding("&lt;") == "<" && Decoding("&gt;") == ">" && Decoding("&amp;") == "&"
    ensures Decoding("&quot;") == "\"" && Decoding("&apos;") == "'"
  {
    hide Decoding;
    EncodedOne('<', translate);
    EncodedOne('&', translate);
    EncodedOne('>', true);
    EncodedOne('"', true);
    EncodedOne('\'', true);
    EncodedOne('>', false);
    EncodedOne('"', false);
    EncodedOne('\'', false);
  }

  lemma EncodedOne(c: char, translate: bool)
    ensures Encoding([c], translate) == Entity(c, translate) && Decoding(Entity(c, translate)) == [c]
  {
    hide Entity;
    assert Encoding([c], translate) == Entity(c, translate) + "";
    EncodeRoundTrip([c], translate, "");
    assert Encoding([c], translate) + "" == Entity(c, translate) && [c] + Decoding("") == [c];
  }
}
