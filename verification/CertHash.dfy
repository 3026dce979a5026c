/** Certificate hashes and their text form. */
module Base64 {
  import opened Prelude

  /** The alphabet of section 4 of RFC 4648. */
  function Digit(v: int): (c: char)
    requires 0 <= v < 64
  {
    if v < 26 then 'A' + v as char
    else if v < 52 then 'a' + (v - 26) as char
    else if v < 62 then '0' + (v - 52) as char
    else if v == 62 then '+'
    else '/'
  }

  function Value(c: char): (v: Option<int>)
    ensures v.Some? ==> 0 <= v.value < 64
  {
    if 'A' <= c <= 'Z' then Some(c as int - 'A' as int)
    else if 'a' <= c <= 'z' then Some(c as int - 'a' as int + 26)
    else if '0' <= c <= '9' then Some(c as int - '0' as int + 52)
    else if c == '+' then Some(62)
    else if c == '/' then Some(63)
    else None
  }

  lemma DigitsAreInvertible(v: int)
    requires 0 <= v < 64
    ensures Value(Digit(v)) == Some(v) && Digit(v) != ':' && Digit(v) != '='
  {
  }

  /** Three bytes, as four six-bit values. */
  function Six0(a: Byte): int { a / 4 }
  function Six1(a: Byte, b: Byte): int { a % 4 * 16 + b / 16 }
  function Six2(b: Byte, c: Byte): int { b % 16 * 4 + c / 64 }
  function Six3(c: Byte): int { c % 64 }

  /** The four characters of a whole group, and of a last group of one or two bytes. */
  function Group3(a: Byte, b: Byte, c: Byte): (g: string)
    ensures |g| == 4
  {
    [Digit(Six0(a)), Digit(Six1(a, b)), Digit(Six2(b, c)), Digit(Six3(c))]
  }

  function Group2(a: Byte, b: Byte): string { [Digit(Six0(a)), Digit(Six1(a, b)), Digit(Six2(b, 0)), '='] }

  function Group1(a: Byte): string { [Digit(Six0(a)), Digit(Six1(a, 0)), '=', '='] }

  function Encode(b: Bytes): string {
    if |b| == 0 then ""
    else if |b| == 1 then Group1(b[0])
    else if |b| == 2 then Group2(b[0], b[1])
    else Group3(b[0], b[1], b[2]) + Encode(b[3..])
  }

  /** One to three bytes from four characters; fewer than three only with padding. */
  function Ungroup(g: string): (r: Option<Bytes>)
    requires |g| == 4
    ensures r.Some? ==> 1 <= |r.value| <= 3
  {
    if Value(g[0]).None? || Value(g[1]).None? then None
    else
      var v0, v1 := Value(g[0]).value, Value(g[1]).value;
      var b0: Byte := v0 * 4 + v1 / 16;
      if g[2] == '=' then
        if g[3] == '=' then Some([b0]) else None
      else if Value(g[2]).None? then None
      else
        var v2 := Value(g[2]).value;
        var b1: Byte := v1 % 16 * 16 + v2 / 4;
        if g[3] == '=' then Some([b0, b1])
        else if Value(g[3]).None? then None
        else
          var b2: Byte := v2 % 4 * 64 + Value(g[3]).value;
          Some([b0, b1, b2])
  }

  /** None for text that is not Base64: padding may stand only in the last group. */
  function Decode(s: string): Option<Bytes> {
    if s == "" then Some([])
    else if |s| < 4 then None
    else
      match Ungroup(s[..4])
      case None => None
      case Some(bytes) =>
        if |bytes| < 3 then (if |s| == 4 then Some(bytes) else None)
        else
          match Decode(s[4..])
          case None => None
          case Some(rest) => Some(bytes + rest)
  }

  lemma SixBits(a: Byte, b: Byte, c: Byte)
    ensures 0 <= Six0(a) < 64 && 0 <= Six1(a, b) < 64 && 0 <= Six2(b, c) < 64 && 0 <= Six3(c) < 64
    ensures Six0(a) * 4 + Six1(a, b) / 16 == a
    ensures Six1(a, b) % 16 * 16 + Six2(b, c) / 4 == b
    ensures Six2(b, c) % 4 * 64 + Six3(c) == c
  {
  }

  predicate IsSix(v: int) { 0 <= v < 64 }

  /** What a group of digits reads as. */
  lemma DigitsRead(v0: int, v1: int, v2: int, v3: int)
    requires IsSix(v0) && IsSix(v1) && IsSix(v2) && IsSix(v3)
    ensures Ungroup([Digit(v0), Digit(v1), Digit(v2), Digit(v3)])
      == Some([v0 * 4 + v1 / 16, v1 % 16 * 16 + v2 / 4, v2 % 4 * 64 + v3])
    ensures Ungroup([Digit(v0), Digit(v1), Digit(v2), '=']) == Some([v0 * 4 + v1 / 16, v1 % 16 * 16 + v2 / 4])
    ensures Ungroup([Digit(v0), Digit(v1), '=', '=']) == Some([v0 * 4 + v1 / 16])
    ensures Digit(v0) != ':' && Digit(v1) != ':' && Digit(v2) != ':' && Digit(v3) != ':'
  {
    DigitsAreInvertible(v0);
    DigitsAreInvertible(v1);
    DigitsAreInvertible(v2);
    DigitsAreInvertible(v3);
  }

  lemma Group3IsInvertible(a: Byte, b: Byte, c: Byte)
    ensures Ungroup(Group3(a, b, c)) == Some([a, b, c]) && ':' !in Group3(a, b, c)
  {
    SixBits(a, b, c);
    DigitsRead(Six0(a), Six1(a, b), Six2(b, c), Six3(c));
  }

  lemma Group2IsInvertible(a: Byte, b: Byte)
    ensures Ungroup(Group2(a, b)) == Some([a, b]) && ':' !in Group2(a, b)
  {
    SixBits(a, b, 0);
    DigitsRead(Six0(a), Six1(a, b), Six2(b, 0), 0);
  }

  lemma Group1IsInvertible(a: Byte)
    ensures Ungroup(Group1(a)) == Some([a]) && ':' !in Group1(a)
  {
    SixBits(a, 0, 0);
    DigitsRead(Six0(a), Six1(a, 0), 0, 0);
  }

  lemma DecodeGroup(g: string, rest: string)
    requires |g| == 4 && Ungroup(g).Some?
    ensures |Ungroup(g).value| == 3 && Decode(rest).Some? ==>
      Decode(g + rest) == Some(Ungroup(g).value + Decode(rest).value)
    ensures |Ungroup(g).value| < 3 ==> Decode(g) == Ungroup(g)
  {
    assert (g + rest)[..4] == g && (g + rest)[4..] == rest;
    assert g[..4] == g;
  }

  /** Encoding is invertible and never produces a colon. */
  predicate RoundTrips(b: Bytes) {
    Decode(Encode(b)) == Some(b) && ':' !in Encode(b)
  }

  lemma ShortRoundTrips(b: Bytes)
    requires |b| < 3
    ensures RoundTrips(b)
  {
    if |b| == 1 {
      Group1IsInvertible(b[0]);
      DecodeGroup(Group1(b[0]), "");
      assert b == [b[0]];
    } else if |b| == 2 {
      Group2IsInvertible(b[0], b[1]);
      DecodeGroup(Group2(b[0], b[1]), "");
      assert b == [b[0], b[1]];
    }
  }

  lemma GroupThenRest(a: Byte, b: Byte, c: Byte, rest: string, tail: Bytes)
    requires Decode(rest) == Some(tail) && ':' !in rest
    ensures var text := Group3(a, b, c) + rest;
      Decode(text) == Some([a, b, c] + tail) && ':' !in text
  {
    Group3IsInvertible(a, b, c);
    DecodeGroup(Group3(a, b, c), rest);
  }

  lemma LongRoundTrips(b: Bytes)
    requires |b| >= 3 && RoundTrips(b[3..])
    ensures RoundTrips(b)
  {
    GroupThenRest(b[0], b[1], b[2], Encode(b[3..]), b[3..]);
    assert b == [b[0], b[1], b[2]] + b[3..];
  }

  lemma {:induction false} AllRoundTrip(b: Bytes)
    ensures RoundTrips(b)
  {
    if |b| < 3 {
      ShortRoundTrips(b);
    } else {
      AllRoundTrip(b[3..]);
      LongRoundTrips(b);
    }
  }

  /** The examples of section 10 of RFC 4648, and the last two digits of the alphabet. */
  lemma KnownTexts()
    ensures Encode([]) == "" && Encode([0x66]) == "Zg==" && Encode([0x66, 0x6f]) == "Zm8="
    ensures Encode([0x66, 0x6f, 0x6f]) == "Zm9v" && Encode([0x66, 0x6f, 0x6f, 0x62]) == "Zm9vYg=="
    ensures Encode([0x66, 0x6f, 0x6f, 0x62, 0x61]) == "Zm9vYmE="
    ensures Encode([0x66, 0x6f, 0x6f, 0x62, 0x61, 0x72]) == "Zm9vYmFy"
    ensures Encode([0xfb, 0xff, 0xbf]) == "+/+/"
  {
    var foobar: Bytes := [0x66, 0x6f, 0x6f, 0x62, 0x61, 0x72];
    assert foobar[3..] == [0x62, 0x61, 0x72] && foobar[3..][3..] == [];
    var fooba: Bytes := [0x66, 0x6f, 0x6f, 0x62, 0x61];
    assert fooba[3..] == [0x62, 0x61];
    var foob: Bytes := [0x66, 0x6f, 0x6f, 0x62];
    assert foob[3..] == [0x62];
    assert Encode([0x62, 0x61, 0x72]) == "YmFy" && Encode([0x66, 0x6f, 0x6f]) == "Zm9v";
  }

  lemma OneGroupMore(n: nat, shorter: nat)
    requires n >= 3 && shorter == 4 * ((n - 3 + 2) / 3)
    ensures 4 + shorter == 4 * ((n + 2) / 3)
  {
  }

  /** The text has the length its buffer is sized for. */
  lemma {:induction false} EncodeLength(b: Bytes)
    ensures |Encode(b)| == 4 * ((|b| + 2) / 3)
  {
    if |b| >= 3 {
      EncodeLength(b[3..]);
      OneGroupMore(|b|, |Encode(b[3..])|);
      assert |Encode(b)| == 4 + |Encode(b[3..])|;
    }
  }
}

module StringSplits {
  /** The pieces between separators, in order. */
  function Pieces(str: string, ch: char): (p: seq<string>)
    ensures |p| > 0
  {
    if str == "" then [""]
    else if str[|str| - 1] == ch then Pieces(str[..|str| - 1], ch) + [""]
    else
      var p := Pieces(str[..|str| - 1], ch);
      p[..|p| - 1] + [p[|p| - 1] + [str[|str| - 1]]]
  }

  function Join(pieces: seq<string>, ch: char): string
    requires |pieces| > 0
  {
    if |pieces| == 1 then pieces[0] else Join(pieces[..|pieces| - 1], ch) + [ch] + pieces[|pieces| - 1]
  }

  /** Joining the pieces restores the string, and no piece contains the separator. */
  lemma {:induction false} PiecesJoin(str: string, ch: char)
    ensures Join(Pieces(str, ch), ch) == str
    ensures forall i :: 0 <= i < |Pieces(str, ch)| ==> ch !in Pieces(str, ch)[i]
  {
    if str != "" {
      var front, c := str[..|str| - 1], str[|str| - 1];
      PiecesJoin(front, ch);
      var p := Pieces(front, ch);
      if c != ch {
        var q := Pieces(str, ch);
        assert q[..|q| - 1] == p[..|p| - 1];
      }
    }
  }

  lemma PiecesOfLonger(str: string, c: char, ch: char)
    ensures var p := Pieces(str, ch);
      Pieces(str + [c], ch) == if c == ch then p + [""] else p[..|p| - 1] + [p[|p| - 1] + [c]]
  {
    assert (str + [c])[..|str|] == str;
  }

  lemma JoinOfLonger(pieces: seq<string>, c: char, ch: char)
    requires |pieces| > 0
    ensures Join(pieces + [""], ch) == Join(pieces, ch) + [ch]
    ensures Join(pieces[..|pieces| - 1] + [pieces[|pieces| - 1] + [c]], ch) == Join(pieces, ch) + [c]
  {
    var longer := pieces[..|pieces| - 1] + [pieces[|pieces| - 1] + [c]];
    assert (pieces + [""])[..|pieces|] == pieces;
    assert longer[..|pieces| - 1] == pieces[..|pieces| - 1];
  }

  /** There is no other way to cut a string into pieces free of the separator. */
  lemma {:induction false} PiecesAreUnique(pieces: seq<string>, ch: char)
    requires |pieces| > 0 && forall i :: 0 <= i < |pieces| ==> ch !in pieces[i]
    ensures Pieces(Join(pieces, ch), ch) == pieces
    decreases |pieces|, |pieces[|pieces| - 1]|
  {
    var n := |pieces| - 1;
    var front, last := pieces[..n], pieces[n];
    if last == "" {
      assert pieces == front + [""];
      if n > 0 {
        PiecesAreUnique(front, ch);
        JoinOfLonger(front, ch, ch);
        PiecesOfLonger(Join(front, ch), ch, ch);
      }
    } else {
      var c := last[|last| - 1];
      var shorter := front + [last[..|last| - 1]];
      assert c in last && last == last[..|last| - 1] + [c];
      assert shorter[..n] + [shorter[n] + [c]] == pieces;
      PiecesAreUnique(shorter, ch);
      JoinOfLonger(shorter, c, ch);
      PiecesOfLonger(Join(shorter, ch), c, ch);
    }
  }

  /** The pieces of the first i characters are those finished and the one begun. */
  ghost predicate Begun(str: string, ch: char, i: nat, calls: seq<string>, begin: nat) {
    begin <= i <= |str| && Pieces(str[..i], ch) == calls + [str[begin..i]]
  }

  lemma PiecesExtend(str: string, ch: char, i: nat, calls: seq<string>, begin: nat)
    requires i < |str| && Begun(str, ch, i, calls, begin)
    ensures str[i] == ch ==> Begun(str, ch, i + 1, calls + [str[begin..i]], i + 1)
    ensures str[i] != ch ==> Begun(str, ch, i + 1, calls, begin)
  {
    var last := str[begin..i];
    assert str[..i + 1][..i] == str[..i];
    assert (calls + [last])[..|calls|] == calls;
    if str[i] == ch {
      assert str[i + 1..i + 1] == "";
      assert Pieces(str[..i + 1], ch) == Pieces(str[..i], ch) + [""];
    } else {
      assert str[begin..i + 1] == last + [str[i]];
    }
  }

  /** The source's loop: the callback's arguments, in the order of its calls. */
  method StringSplit(str: string, ch: char) returns (calls: seq<string>)
    ensures calls == Pieces(str, ch)
  {
    calls := [];
    var begin := 0;
    for i := 0 to |str|
      invariant 0 <= begin && Begun(str, ch, i, calls, begin)
    {
      PiecesExtend(str, ch, i, calls, begin);
      if str[i] == ch {
        calls := calls + [str[begin..i]];
        begin := i + 1;
      }
    }
    assert str[..|str|] == str;
    calls := calls + [str[begin..]];
  }
}

module CertHashes {
  import opened Prelude
  import Base64
  import opened StringSplits

  datatype HashType = INVALID | RAW | SHA256

  datatype CertHash = CertHash(hashType: HashType, hash: Bytes)

  predicate IsValid(h: CertHash) { !h.hashType.INVALID? }

  /** `sha256` stands for the hash function. */
  function ComputeHash(sha256: Bytes -> Bytes, hashType: HashType, content: Bytes): Bytes
    requires hashType != INVALID
  {
    if hashType == RAW then content else sha256(content)
  }

  function Digest(sha256: Bytes -> Bytes, hashType: HashType, cert: Bytes): CertHash
    requires hashType != INVALID
  {
    CertHash(hashType, ComputeHash(sha256, hashType, cert))
  }

  /** Sizes first, then every byte, without stopping at the first difference. */
  method Compare(sha256: Bytes -> Bytes, h: CertHash, cert: Bytes) returns (same: bool)
    requires IsValid(h)
    ensures same <==> h == Digest(sha256, h.hashType, cert)
  {
    var other := ComputeHash(sha256, h.hashType, cert);
    if |h.hash| != |other| {
      return false;
    }
    var x := 0;
    for i := 0 to |other|
      invariant 0 <= x
      invariant x == 0 <==> h.hash[..i] == other[..i]
    {
      assert h.hash[..i + 1] == h.hash[..i] + [h.hash[i]] && other[..i + 1] == other[..i] + [other[i]];
      x := x + (if h.hash[i] == other[i] then 0 else 1);
    }
    assert h.hash[..|other|] == h.hash && other[..|other|] == other;
    same := x == 0;
  }

  function GetRepr(h: CertHash): string {
    match h.hashType
    case INVALID => "invalid:"
    case RAW => "raw:" + Base64.Encode(h.hash)
    case SHA256 => "sha256:" + Base64.Encode(h.hash)
  }

  /** The parser's variables; `Quit` is the end of the program on text that is not Base64. */
  datatype Parse = Reading(cnt: nat, result: CertHash) | Quit

  function Feed(p: Parse, seg: string): Parse {
    if p.Quit? || (p.cnt > 0 && p.result.hashType == INVALID) then p
    else if p.cnt == 0 then
      var t := if seg == "raw" then RAW else if seg == "sha256" then SHA256 else INVALID;
      Reading(1, p.result.(hashType := t))
    else if p.cnt == 1 then
      match Base64.Decode(seg)
      case None => Quit
      case Some(hash) => Reading(2, p.result.(hash := hash))
    else Reading(p.cnt + 1, p.result.(hashType := INVALID))
  }

  function FeedAll(p: Parse, segs: seq<string>): Parse {
    if segs == [] then p else Feed(FeedAll(p, segs[..|segs| - 1]), segs[|segs| - 1])
  }

  const UNREAD := Reading(0, CertHash(INVALID, []))

  /** None when the program ends. */
  function FromRepr(repr: string): Option<CertHash> {
    var p := FeedAll(UNREAD, Pieces(repr, ':'));
    if p.Quit? then None else Some(p.result)
  }

  method ReadRepr(repr: string) returns (result: Option<CertHash>)
    ensures result == FromRepr(repr)
  {
    var segs := StringSplit(repr, ':');
    var p := UNREAD;
    for i := 0 to |segs|
      invariant p == FeedAll(UNREAD, segs[..i])
    {
      assert segs[..i + 1][..i] == segs[..i];
      p := Feed(p, segs[i]);
    }
    assert segs[..|segs|] == segs;
    result := if p.Quit? then None else Some(p.result);
  }

  lemma FeedTwo(a: string, b: string)
    ensures FeedAll(UNREAD, [a, b]) == Feed(Feed(UNREAD, a), b)
  {
    assert [a, b][..1] == [a] && [a][..0] == [];
    assert FeedAll(UNREAD, [a]) == Feed(FeedAll(UNREAD, []), a);
  }

  function Prefix(t: HashType): (p: string)
    ensures ':' !in p
  {
    if t == RAW then "raw" else if t == SHA256 then "sha256" else "invalid"
  }

  function Payload(h: CertHash): string { if IsValid(h) then Base64.Encode(h.hash) else "" }

  lemma ReprIsPrefixed(h: CertHash)
    ensures GetRepr(h) == Prefix(h.hashType) + [':'] + Payload(h)
  {
    assert "raw:" == "raw" + [':'] && "sha256:" == "sha256" + [':'] && "invalid:" == "invalid" + [':'];
  }

  lemma FeedsBack(h: CertHash, text: string)
    requires Base64.Decode(text) == Some(h.hash)
    ensures var p := Feed(Feed(UNREAD, Prefix(h.hashType)), text);
      p.Reading? && (if IsValid(h) then p.result == h else !IsValid(p.result))
  {
  }

  /** Every valid hash survives being written and read back; an invalid one stays invalid. */
  lemma ReprRoundTrip(h: CertHash)
    ensures IsValid(h) ==> FromRepr(GetRepr(h)) == Some(h)
    ensures !IsValid(h) ==> FromRepr(GetRepr(h)).Some? && !IsValid(FromRepr(GetRepr(h)).value)
  {
    Base64.AllRoundTrip(h.hash);
    FeedsBack(if IsValid(h) then h else h.(hash := []), Payload(h));
    ReadsBack(Prefix(h.hashType), Payload(h));
    ReprIsPrefixed(h);
  }

  lemma ReadsBack(prefix: string, text: string)
    requires ':' !in prefix && ':' !in text
    ensures FeedAll(UNREAD, Pieces(prefix + [':'] + text, ':')) == Feed(Feed(UNREAD, prefix), text)
  {
    assert [prefix, text][..1] == [prefix];
    assert Join([prefix, text], ':') == prefix + [':'] + text;
    PiecesAreUnique([prefix, text], ':');
    FeedTwo(prefix, text);
  }

  /** Exactly these texts read as a valid hash: a known prefix, alone or with one Base64 field. */
  lemma ReadableTexts(repr: string)
    ensures var p := Pieces(repr, ':');
      (FromRepr(repr).Some? && IsValid(FromRepr(repr).value)) <==>
      (|p| <= 2 && p[0] in {"raw", "sha256"} && (|p| == 2 ==> Base64.Decode(p[1]).Some?))
  {
    var p := Pieces(repr, ':');
    if |p| == 1 {
      assert p == [p[0]] && p[..0] == [];
    } else if |p| == 2 {
      assert p == [p[0], p[1]];
      FeedTwo(p[0], p[1]);
    } else {
      ThirdPieceInvalidates(p);
    }
  }

  lemma {:induction false} ThirdPieceInvalidates(p: seq<string>)
    requires |p| >= 3
    ensures var r := FeedAll(UNREAD, p); r.Quit? || (r.cnt > 0 && !IsValid(r.result))
  {
    var front := p[..|p| - 1];
    if |p| == 3 {
      assert front == [p[0], p[1]];
      FeedTwo(p[0], p[1]);
    } else {
      ThirdPieceInvalidates(front);
    }
  }

  // ---------- who is recognised ----------

  /** What the TLS library found wrong with the peer's certificate. */
  datatype Verdict = NoFlaw | OnlyUntrusted | OtherFlaw

  /** The hash is the certificate's own. */
  predicate IsOf(sha256: Bytes -> Bytes, h: CertHash, cert: Bytes) {
    IsValid(h) && h == Digest(sha256, h.hashType, cert)
  }

  ghost predicate Recognised(sha256: Bytes -> Bytes, verdict: Verdict, expected: seq<CertHash>, cert: Bytes) {
    verdict.NoFlaw? || (verdict.OnlyUntrusted? && exists h :: h in expected && IsOf(sha256, h, cert))
  }

  /** A certificate with no flaw but its missing issuer passes if one of the expected hashes is its own. */
  method VerifyCert(sha256: Bytes -> Bytes, verdict: Verdict, expected: seq<CertHash>, cert: Bytes) returns (ok: bool)
    requires forall h :: h in expected ==> IsValid(h)
    ensures ok <==> Recognised(sha256, verdict, expected, cert)
  {
    if verdict == NoFlaw {
      return true;
    }
    if verdict != OnlyUntrusted {
      return false;
    }
    for i := 0 to |expected|
      invariant forall k :: 0 <= k < i ==> !IsOf(sha256, expected[k], cert)
    {
      var same := Compare(sha256, expected[i], cert);
      if same {
        return true;
      }
    }
    return false;
  }

  /** A flawed certificate is never recognised, and one without a known issuer exactly if an expected hash is, by its
      type, the certificate itself or its SHA-256. */
  lemma StrangersAreNotRecognised(sha256: Bytes -> Bytes, verdict: Verdict, expected: seq<CertHash>, cert: Bytes)
    ensures verdict == OtherFlaw ==> !Recognised(sha256, verdict, expected, cert)
    ensures verdict == OnlyUntrusted ==>
      (Recognised(sha256, verdict, expected, cert) <==>
         CertHash(RAW, cert) in expected || CertHash(SHA256, sha256(cert)) in expected)
  {
    if verdict == OnlyUntrusted {
      assert IsOf(sha256, CertHash(RAW, cert), cert) && IsOf(sha256, CertHash(SHA256, sha256(cert)), cert);
    }
  }

  /** The saved form of a list of known certificates. */
  function Saved(list: seq<CertHash>): seq<string> {
    seq(|list|, i requires 0 <= i < |list| => GetRepr(list[i]))
  }

  /** The valid ones of the hashes read; None when the program ends on bad text. */
  function Collect(read: seq<Option<CertHash>>): Option<seq<CertHash>> {
    if read == [] then Some([])
    else
      match (Collect(read[..|read| - 1]), read[|read| - 1])
      case (Some(list), Some(h)) => Some(if IsValid(h) then list + [h] else list)
      case _ => None
  }

  /** What a saved list reads as. */
  function Loaded(texts: seq<string>): Option<seq<CertHash>> {
    Collect(seq(|texts|, i requires 0 <= i < |texts| => FromRepr(texts[i])))
  }

  lemma {:induction false} CollectedExactly(read: seq<Option<CertHash>>)
    ensures Collect(read) == None <==> None in read
    ensures Collect(read).Some? ==> forall h :: h in Collect(read).value <==> Some(h) in read && IsValid(h)
  {
    if read != [] {
      var front := read[..|read| - 1];
      CollectedExactly(front);
      assert read == front + [read[|read| - 1]];
    }
  }

  /** Loading ends the program exactly if some text is not Base64 where it should be, and otherwise yields exactly the
      valid hashes among what the texts read as. */
  lemma LoadedExactly(texts: seq<string>)
    ensures Loaded(texts) == None <==> exists i :: 0 <= i < |texts| && FromRepr(texts[i]) == None
    ensures Loaded(texts).Some? ==>
      forall h :: h in Loaded(texts).value <==>
        IsValid(h) && exists i :: 0 <= i < |texts| && FromRepr(texts[i]) == Some(h)
  {
    var read := seq(|texts|, i requires 0 <= i < |texts| => FromRepr(texts[i]));
    CollectedExactly(read);
    forall r: Option<CertHash>
      ensures r in read <==> exists i :: 0 <= i < |texts| && FromRepr(texts[i]) == r
    {
      if exists i :: 0 <= i < |texts| && FromRepr(texts[i]) == r {
        var i :| 0 <= i < |texts| && FromRepr(texts[i]) == r;
        assert read[i] == r;
      }
    }
  }

  method Load(texts: seq<string>) returns (list: Option<seq<CertHash>>)
    ensures list == Loaded(texts)
  {
    ghost var read := seq(|texts|, i requires 0 <= i < |texts| => FromRepr(texts[i]));
    list := Some([]);
    for i := 0 to |texts|
      invariant list == Collect(read[..i])
    {
      assert read[..i + 1][..i] == read[..i];
      var hash := ReadRepr(texts[i]);
      assert read[i] == hash;
      if list.Some? {
        if hash == None {
          list := None;
        } else if IsValid(hash.value) {
          list := Some(list.value + [hash.value]);
        }
      }
    }
    assert read[..|texts|] == read;
  }

  lemma {:induction false} ValidListIsCollected(read: seq<Option<CertHash>>, list: seq<CertHash>)
    requires |read| == |list| && forall i :: 0 <= i < |list| ==> read[i] == Some(list[i]) && IsValid(list[i])
    ensures Collect(read) == Some(list)
  {
    if list != [] {
      var n := |list| - 1;
      ValidListIsCollected(read[..n], list[..n]);
      assert list[..n] + [list[n]] == list;
    }
  }

  /** A list of valid hashes survives being saved and loaded, in order. */
  lemma SavedListIsLoaded(list: seq<CertHash>)
    requires forall h :: h in list ==> IsValid(h)
    ensures Loaded(Saved(list)) == Some(list)
  {
    var texts := Saved(list);
    var read := seq(|texts|, i requires 0 <= i < |texts| => FromRepr(texts[i]));
    forall i | 0 <= i < |list|
      ensures read[i] == Some(list[i])
    {
      ReprRoundTrip(list[i]);
    }
    ValidListIsCollected(read, list);
  }
}
