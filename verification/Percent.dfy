/** Percent-encoding of byte strings (section 2.1 of RFC 3986), with the bytes left as they are as a parameter. */
module Percent {
  import opened Octets
  import opened Text

  /** A string of bytes, each written as the character of its value. */
  predicate IsBytes(s: string) {
    forall i :: 0 <= i < |s| ==> s[i] < 256 as char
  }

  function HexDigit(v: nat): (c: char)
    requires v < 16
    ensures IsHexDigit(c) && HexValue(c) == v
    ensures '0' <= c <= '9' || 'A' <= c <= 'F'
  {
    if v < 10 then ('0' as nat + v) as char else ('A' as nat + v - 10) as char
  }

  predicate IsAlphanumeric(c: char) {
    'a' <= c <= 'z' || 'A' <= c <= 'Z' || '0' <= c <= '9'
  }

  /** The unreserved characters of RFC 3986, section 2.3: what a query key or value keeps. */
  predicate KeptInQuery(c: char) {
    IsAlphanumeric(c) || c in "-_.~"
  }

  /** What a path segment keeps. */
  predicate KeptInPath(c: char) {
    KeptInQuery(c) || c in "$&+:=@"
  }

  function EscapeChar(c: char, kept: char -> bool): string
    requires c < 256 as char
  {
    if kept(c) then [c] else ['%', HexDigit(c as nat / 16), HexDigit(c as nat % 16)]
  }

  function Escape(s: string, kept: char -> bool): string
    requires IsBytes(s)
  {
    if s == "" then "" else EscapeChar(s[0], kept) + Escape(s[1..], kept)
  }

  predicate IsTriplet(s: string) {
    |s| >= 3 && s[0] == '%' && IsHexDigit(s[1]) && IsHexDigit(s[2])
  }

  function TripletValue(s: string): char
    requires IsTriplet(s)
  {
    (HexValue(s[1]) * 16 + HexValue(s[2])) as char
  }

  /** Decodes every `%` triplet; a `%` that starts none is an error. */
  function Unescape(s: string): Option<string> {
    if s == "" then Some("")
    else if IsTriplet(s) then
      var rest := Unescape(s[3..]);
      if rest.Some? then Some([TripletValue(s)] + rest.value) else None
    else if s[0] == '%' then None
    else
      var rest := Unescape(s[1..]);
      if rest.Some? then Some([s[0]] + rest.value) else None
  }

  /** A decoded string that still holds a triplet was encoded twice. */
  predicate ContainsTriplet(s: string) {
    exists i :: 0 <= i <= |s| && IsTriplet(s[i..])
  }

  predicate ContainsControl(s: string) {
    exists i :: 0 <= i < |s| && (s[i] < ' ' || s[i] == 127 as char)
  }

  lemma {:induction false} UnescapeGivesBytes(s: string)
    requires IsBytes(s) && Unescape(s).Some?
    ensures IsBytes(Unescape(s).value)
    ensures Unescape(s).value == "" <==> s == ""
    decreases |s|
  {
    if s != "" {
      UnescapeGivesBytes(if IsTriplet(s) then s[3..] else s[1..]);
    }
  }

  /** Decoding takes back the encoding, whatever follows it. */
  lemma {:induction false} UnescapeEscaped(s: string, kept: char -> bool, rest: string)
    requires IsBytes(s) && !kept('%') && Unescape(rest).Some?
    ensures Unescape(Escape(s, kept) + rest) == Some(s + Unescape(rest).value)
    decreases |s|
  {
    hide Unescape;
    hide EscapeChar;
    var after := Unescape(rest).value;
    if s == "" {
      assert Escape(s, kept) + rest == rest && s + after == after;
    } else {
      var more := Escape(s[1..], kept) + rest;
      UnescapeEscaped(s[1..], kept, rest);
      assert Escape(s, kept) + rest == EscapeChar(s[0], kept) + more;
      assert s + after == [s[0]] + (s[1..] + after);
      UnescapeOne(s[0], kept, more);
    }
  }

  lemma UnescapeOne(c: char, kept: char -> bool, rest: string)
    requires c < 256 as char && !kept('%') && Unescape(rest).Some?
    ensures Unescape(EscapeChar(c, kept) + rest) == Some([c] + Unescape(rest).value)
  {
    var head := EscapeChar(c, kept);
    assert (head + rest)[|head|..] == rest;
    if !kept(c) {
      TripletOf(c, head + rest);
    }
  }

  lemma TripletOf(c: char, s: string)
    requires c < 256 as char && |s| >= 3
    requires s[..3] == ['%', HexDigit(c as nat / 16), HexDigit(c as nat % 16)]
    ensures IsTriplet(s) && TripletValue(s) == c
  {
    assert s[0] == s[..3][0] && s[1] == s[..3][1] && s[2] == s[..3][2];
  }

  lemma UnescapeEscape(s: string, kept: char -> bool)
    requires IsBytes(s) && !kept('%')
    ensures Unescape(Escape(s, kept)) == Some(s)
    ensures Escape(s, kept) == "" <==> s == ""
  {
    UnescapeEscaped(s, kept, "");
    assert Escape(s, kept) + "" == Escape(s, kept) && s + "" == s;
  }

  /** An encoding is made of kept characters, `%` and upper-case hexadecimal digits. */
  lemma {:induction false} EscapedAlphabet(s: string, kept: char -> bool)
    requires IsBytes(s)
    ensures forall c :: c in Escape(s, kept) ==> kept(c) || c == '%' || IsAlphanumeric(c)
    ensures (forall c :: kept(c) ==> c < 256 as char) ==> IsBytes(Escape(s, kept))
  {
    if s != "" {
      EscapedAlphabet(s[1..], kept);
      var head, tail := EscapeChar(s[0], kept), Escape(s[1..], kept);
      assert forall c :: c in head + tail ==> c in head || c in tail;
      assert forall i :: 0 <= i < |head + tail| ==> (head + tail)[i] in head + tail;
    }
  }

  lemma SplitIsBytes(raw: string, c: char)
    requires IsBytes(raw)
    ensures forall p :: p in Split(raw, c) ==> IsBytes(p)
  {
    JoinSplit(raw, c);
    forall p | p in Split(raw, c) ensures IsBytes(p) {
      forall k | 0 <= k < |p| ensures p[k] < 256 as char {
        JoinMembers(Split(raw, c), c, p[k]);
      }
    }
  }

  /** A string decodes exactly when every percent sign in it starts a triplet. */
  lemma {:induction false} UnescapesIff(s: string)
    ensures Unescape(s).Some? <==> forall i :: 0 <= i < |s| && s[i] == '%' ==> IsTriplet(s[i..])
    decreases |s|
  {
    if s != "" {
      assert s[0..] == s;
      var n := if IsTriplet(s) then 3 else 1;
      var rest := s[n..];
      UnescapesIff(rest);
      forall i | 0 <= i < |rest| ensures rest[i] == s[n + i] && rest[i..] == s[n + i..] {
      }
      if forall i :: 0 <= i < |rest| && rest[i] == '%' ==> IsTriplet(rest[i..]) {
        forall i | n <= i < |s| && s[i] == '%' ensures IsTriplet(s[i..]) {
          assert rest[i - n] == s[i];
        }
      }
    }
  }
}
