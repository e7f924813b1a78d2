/*
 * The lexical validators of libxml2's tree module
 * (Programs/ColladaConverter/Collada15/FCollada/LibXML/tree.c):
 * xmlValidateNCName, xmlValidateQName, xmlValidateName and xmlValidateNMToken.
 * Each first tries a quick scan that only knows ASCII and, when that does not
 * reach the end of the string, rescans with the full character classes of
 * XML 1.0 (Letter, Digit, CombiningChar, Extender).
 *
 * A value is the sequence of code points that CUR_SCHAR decodes from the
 * UTF-8 bytes. The ASCII scan compares single bytes; every byte of a non-ASCII
 * character is at least 0x80 and fails all of its tests, so it stops at such
 * a character exactly as it stops here at the code point. The Unicode tables
 * behind IS_LETTER, IS_DIGIT, IS_COMBINING and IS_EXTENDER are not part of
 * this model: they are a parameter, constrained only to agree with XML 1.0 on
 * ASCII.
 */
module XmlValidate {

  import opened Wrappers

  /** The character classes IS_LETTER, IS_DIGIT, IS_COMBINING and IS_EXTENDER. */
  datatype CharClasses = CharClasses(isLetter: int -> bool, isDigit: int -> bool,
                                     isCombining: int -> bool, isExtender: int -> bool)

  predicate AsciiLetter(c: int)
  {
    'a' as int <= c <= 'z' as int || 'A' as int <= c <= 'Z' as int
  }

  predicate AsciiDigit(c: int)
  {
    '0' as int <= c <= '9' as int
  }

  predicate NoAsciiChar(c: int)
  {
    false
  }

  /** On ASCII, XML 1.0's Letter is a-z and A-Z, Digit is 0-9, and there are no combining characters or extenders. */
  predicate AsciiConsistent(cls: CharClasses)
  {
    (forall c :: 0 <= c < 0x80 ==> cls.isLetter(c) == AsciiLetter(c)) &&
    (forall c :: 0 <= c < 0x80 ==> cls.isDigit(c) == AsciiDigit(c)) &&
    (forall c :: 0 <= c < 0x80 ==> !cls.isCombining(c)) &&
    (forall c :: 0 <= c < 0x80 ==> !cls.isExtender(c))
  }

  /** The classes restricted to ASCII: what the quick scans know. */
  const AsciiClasses := CharClasses(AsciiLetter, AsciiDigit, NoAsciiChar, NoAsciiChar)

  /** A decoded C string: no code point is the terminator. */
  predicate IsText(v: seq<int>)
  {
    forall i :: 0 <= i < |v| ==> v[i] > 0
  }

  /** *cur: the code point at i, or the terminator at the end. */
  function Cur(v: seq<int>, i: nat): (c: int)
    ensures i < |v| ==> c == v[i]
    ensures i >= |v| ==> c == 0
  {
    if i < |v| then v[i] else 0
  }

  /** IS_BLANK and IS_BLANK_CH: space, tab, line feed, carriage return. */
  predicate IsBlank(c: int)
  {
    c == 0x20 || c == 0x09 || c == 0x0A || c == 0x0D
  }

  /** The character tests the scans loop on. */
  datatype CharKind =
    | Blank
    | AsciiNCStart | AsciiNCChar | AsciiNameStart | AsciiNameChar
    | NCStart | NCChar | NameStart | NameChar

  predicate InKind(c: int, k: CharKind, cls: CharClasses)
  {
    match k
    case Blank => IsBlank(c)
    case AsciiNCStart => AsciiLetter(c) || c == '_' as int
    case AsciiNCChar => AsciiLetter(c) || AsciiDigit(c) || c == '_' as int || c == '-' as int || c == '.' as int
    case AsciiNameStart => AsciiLetter(c) || c == '_' as int || c == ':' as int
    case AsciiNameChar =>
      AsciiLetter(c) || AsciiDigit(c) || c == '_' as int || c == '-' as int || c == '.' as int || c == ':' as int
    case NCStart => cls.isLetter(c) || c == '_' as int
    case NCChar =>
      cls.isLetter(c) || cls.isDigit(c) || c == '.' as int || c == '-' as int || c == '_' as int ||
      cls.isCombining(c) || cls.isExtender(c)
    case NameStart => cls.isLetter(c) || c == '_' as int || c == ':' as int
    case NameChar =>
      cls.isLetter(c) || cls.isDigit(c) || c == '.' as int || c == ':' as int || c == '-' as int ||
      c == '_' as int || cls.isCombining(c) || cls.isExtender(c)
  }

  /** The terminator belongs to no class. */
  lemma TerminatorInNoKind(k: CharKind, cls: CharClasses)
    requires AsciiConsistent(cls)
    ensures !InKind(0, k, cls)
  {
  }

  /** Blanks belong to none of the name classes. */
  lemma BlankInNoName(c: int, cls: CharClasses)
    requires AsciiConsistent(cls)
    ensures IsBlank(c) ==> forall k :: k != Blank ==> !InKind(c, k, cls)
  {
  }

  /** ':' separates the parts of a QName: it is no NCName character. */
  lemma ColonNotNC(cls: CharClasses)
    requires AsciiConsistent(cls)
    ensures !InKind(':' as int, NCStart, cls) && !InKind(':' as int, NCChar, cls)
  {
  }

  /** What the ASCII tests accept, the full tests accept. */
  lemma AsciiKindIncluded(c: int, cls: CharClasses)
    requires AsciiConsistent(cls)
    ensures InKind(c, AsciiNCStart, cls) ==> InKind(c, NCStart, cls)
    ensures InKind(c, AsciiNCChar, cls) ==> InKind(c, NCChar, cls)
    ensures InKind(c, AsciiNameStart, cls) ==> InKind(c, NameStart, cls)
    ensures InKind(c, AsciiNameChar, cls) ==> InKind(c, NameChar, cls)
  {
  }

  // ---------------------------------------------------------------------------
  // The reference grammar
  // ---------------------------------------------------------------------------

  datatype Lexical = NCName | QName | Name | NmToken

  predicate IsNCName(t: seq<int>, cls: CharClasses)
  {
    |t| > 0 && InKind(t[0], NCStart, cls) && forall k :: 1 <= k < |t| ==> InKind(t[k], NCChar, cls)
  }

  /**
   * NCName of Namespaces in XML 1.0; QName ::= (NCName ':')? NCName;
   * Name ::= (Letter | '_' | ':') (NameChar)*; Nmtoken ::= (NameChar)+
   * (XML 1.0 section 2.3, NameChar as in its first edition).
   */
  predicate IsToken(t: seq<int>, lang: Lexical, cls: CharClasses)
  {
    match lang
    case NCName => IsNCName(t, cls)
    case QName =>
      IsNCName(t, cls) ||
      exists i :: 0 < i < |t| && t[i] == ':' as int && IsNCName(t[..i], cls) && IsNCName(t[i + 1..], cls)
    case Name => |t| > 0 && InKind(t[0], NameStart, cls) && forall k :: 1 <= k < |t| ==> InKind(t[k], NameChar, cls)
    case NmToken => |t| > 0 && forall k :: 0 <= k < |t| ==> InKind(t[k], NameChar, cls)
  }

  predicate AllBlank(s: seq<int>)
  {
    forall k :: 0 <= k < |s| ==> IsBlank(s[k])
  }

  /** The value is a token, surrounded by blanks only when spaces are allowed. */
  predicate Accepts(v: seq<int>, space: int, lang: Lexical, cls: CharClasses)
  {
    if space != 0 then
      exists a, b :: 0 <= a <= b <= |v| && AllBlank(v[..a]) && IsToken(v[a..b], lang, cls) && AllBlank(v[b..])
    else IsToken(v, lang, cls)
  }

  // ---------------------------------------------------------------------------
  // What the scans compute
  // ---------------------------------------------------------------------------

  /** The end of the run of characters of kind k that starts at i. */
  function RunEnd(v: seq<int>, i: nat, k: CharKind, cls: CharClasses): (j: nat)
    requires i <= |v|
    ensures i <= j <= |v|
    ensures forall m :: i <= m < j ==> InKind(v[m], k, cls)
    ensures j < |v| ==> !InKind(v[j], k, cls)
    decreases |v| - i
  {
    if i < |v| && InKind(v[i], k, cls) then RunEnd(v, i + 1, k, cls) else i
  }

  /** A run is determined by where it stops. */
  lemma RunEndIs(v: seq<int>, i: nat, k: CharKind, cls: CharClasses, j: nat)
    requires i <= j <= |v|
    requires forall m :: i <= m < j ==> InKind(v[m], k, cls)
    requires j < |v| ==> !InKind(v[j], k, cls)
    ensures RunEnd(v, i, k, cls) == j
  {
  }

  /** A start character of kind start followed by a run of kind body; None when the start is missing. */
  function SimpleEnd(v: seq<int>, a: nat, start: CharKind, body: CharKind, cls: CharClasses): (r: Option<nat>)
    requires a <= |v|
    ensures r.Some? <==> a < |v| && InKind(v[a], start, cls)
    ensures r.Some? ==> a < r.value <= |v|
  {
    if a < |v| && InKind(v[a], start, cls) then Some(RunEnd(v, a + 1, body, cls)) else None
  }

  /** The class of a token's first character. */
  function StartKind(lang: Lexical): CharKind
  {
    match lang
    case NCName => NCStart
    case QName => NCStart
    case Name => NameStart
    case NmToken => NameChar
  }

  /** The class of the characters after the first (of the prefix, for a QName). */
  function BodyKind(lang: Lexical): CharKind
  {
    match lang
    case NCName => NCChar
    case QName => NCChar
    case Name => NameChar
    case NmToken => NameChar
  }

  /** Where a greedy scan of a token that starts at a ends; None when the scan rejects. */
  function TokenEnd(v: seq<int>, a: nat, lang: Lexical, cls: CharClasses): (r: Option<nat>)
    requires a <= |v|
    ensures r.Some? ==> a < r.value <= |v|
  {
    match SimpleEnd(v, a, StartKind(lang), BodyKind(lang), cls)
    case None => None
    case Some(e) =>
      if lang == QName && e < |v| && v[e] == ':' as int then SimpleEnd(v, e + 1, NCStart, NCChar, cls)
      else Some(e)
  }

  lemma NCNameOfRun(v: seq<int>, a: nat, e: nat, cls: CharClasses)
    requires a < e <= |v| && InKind(v[a], NCStart, cls)
    requires forall m :: a + 1 <= m < e ==> InKind(v[m], NCChar, cls)
    ensures IsNCName(v[a..e], cls)
  {
    assert forall k :: 1 <= k < e - a ==> v[a..e][k] == v[a + k];
  }

  /** A scanned token is a token. */
  lemma TokenEndSound(v: seq<int>, a: nat, lang: Lexical, cls: CharClasses)
    requires a <= |v| && TokenEnd(v, a, lang, cls).Some?
    ensures a < TokenEnd(v, a, lang, cls).value <= |v|
    ensures IsToken(v[a..TokenEnd(v, a, lang, cls).value], lang, cls)
  {
    var e := TokenEnd(v, a, lang, cls).value;
    match lang
    case NCName => NCNameOfRun(v, a, e, cls);
    case Name =>
      assert forall k :: 1 <= k < e - a ==> v[a..e][k] == v[a + k];
    case NmToken =>
      assert forall k :: 0 <= k < e - a ==> v[a..e][k] == v[a + k];
    case QName =>
      var e1 := TokenEnd(v, a, NCName, cls).value;
      NCNameOfRun(v, a, e1, cls);
      if e1 < |v| && v[e1] == ':' as int {
        NCNameOfRun(v, e1 + 1, e, cls);
        var t := v[a..e];
        assert t[..e1 - a] == v[a..e1];
        assert t[e1 - a + 1..] == v[e1 + 1..e];
        assert t[e1 - a] == ':' as int;
      }
  }

  /** An unprefixed token is a start character and a run of body characters. */
  lemma TokenAsRun(v: seq<int>, a: nat, b: nat, lang: Lexical, cls: CharClasses)
    requires a <= b <= |v| && IsToken(v[a..b], lang, cls)
    requires lang == QName ==> IsNCName(v[a..b], cls)
    ensures a < b && InKind(v[a], StartKind(lang), cls)
    ensures forall m :: a + 1 <= m < b ==> InKind(v[m], BodyKind(lang), cls)
  {
    var t := v[a..b];
    assert forall m :: a <= m < b ==> v[m] == t[m - a];
  }

  /** A token followed by a blank or the end is what the greedy scan finds. */
  lemma TokenEndComplete(v: seq<int>, a: nat, b: nat, lang: Lexical, cls: CharClasses)
    requires AsciiConsistent(cls)
    requires a <= b <= |v| && IsToken(v[a..b], lang, cls)
    requires b < |v| ==> IsBlank(v[b])
    ensures TokenEnd(v, a, lang, cls) == Some(b)
  {
    ColonNotNC(cls);
    if b < |v| {
      BlankInNoName(v[b], cls);
    }
    var t := v[a..b];
    if lang == QName && !IsNCName(t, cls) {
      var i :| 0 < i < |t| && t[i] == ':' as int && IsNCName(t[..i], cls) && IsNCName(t[i + 1..], cls);
      PrefixedSplit(v, a, b, i, cls);
    } else {
      TokenAsRun(v, a, b, lang, cls);
      RunEndIs(v, a + 1, BodyKind(lang), cls, b);
    }
  }

  /** A prefixed QName v[a..b] whose colon sits at i, followed by a blank or the end, ends at b. */
  lemma PrefixedSplit(v: seq<int>, a: nat, b: nat, i: nat, cls: CharClasses)
    requires AsciiConsistent(cls)
    requires a <= b <= |v| && 0 < i < b - a && v[a..b][i] == ':' as int
    requires IsNCName(v[a..b][..i], cls) && IsNCName(v[a..b][i + 1..], cls)
    requires b < |v| ==> !InKind(v[b], NCChar, cls)
    ensures TokenEnd(v, a, QName, cls) == Some(b)
  {
    assert v[a..b][..i] == v[a..a + i];
    assert v[a..b][i + 1..] == v[a + i + 1..b];
    PrefixedComplete(v, a, a + i, b, cls);
  }

  /** A prefixed QName followed by a blank or the end: the scan crosses the colon and stops at b. */
  lemma PrefixedComplete(v: seq<int>, a: nat, c: nat, b: nat, cls: CharClasses)
    requires AsciiConsistent(cls)
    requires a < c < b <= |v| && v[c] == ':' as int
    requires IsNCName(v[a..c], cls) && IsNCName(v[c + 1..b], cls)
    requires b < |v| ==> !InKind(v[b], NCChar, cls)
    ensures TokenEnd(v, a, QName, cls) == Some(b)
  {
    ColonNotNC(cls);
    TokenAsRun(v, a, c, NCName, cls);
    TokenAsRun(v, c + 1, b, NCName, cls);
    RunEndIs(v, a + 1, NCChar, cls, c);
    assert SimpleEnd(v, a, NCStart, NCChar, cls) == Some(c);
    RunEndIs(v, c + 2, NCChar, cls, b);
    assert SimpleEnd(v, c + 1, NCStart, NCChar, cls) == Some(b);
  }

  /** What the scans decide: blanks (when allowed), a greedily scanned token, blanks, then the end. */
  function ScanAccepts(v: seq<int>, space: int, lang: Lexical, cls: CharClasses): bool
  {
    var a := if space != 0 then RunEnd(v, 0, Blank, cls) else 0;
    match TokenEnd(v, a, lang, cls)
    case None => false
    case Some(e) => (if space != 0 then RunEnd(v, e, Blank, cls) else e) == |v|
  }

  /** The greedy scan decides the grammar exactly. */
  lemma AcceptsIffScan(v: seq<int>, space: int, lang: Lexical, cls: CharClasses)
    requires AsciiConsistent(cls)
    ensures Accepts(v, space, lang, cls) <==> ScanAccepts(v, space, lang, cls)
  {
    if space != 0 {
      if Accepts(v, space, lang, cls) {
        PaddedScanComplete(v, space, lang, cls);
      }
      if ScanAccepts(v, space, lang, cls) {
        PaddedScanSound(v, space, lang, cls);
      }
    } else {
      if IsToken(v, lang, cls) {
        assert v[0..|v|] == v;
        TokenEndComplete(v, 0, |v|, lang, cls);
      }
      if ScanAccepts(v, space, lang, cls) {
        TokenEndSound(v, 0, lang, cls);
        assert v[0..|v|] == v;
      }
    }
  }

  /** With blanks allowed, a value the grammar accepts passes the scan. */
  lemma PaddedScanComplete(v: seq<int>, space: int, lang: Lexical, cls: CharClasses)
    requires AsciiConsistent(cls) && space != 0 && Accepts(v, space, lang, cls)
    ensures ScanAccepts(v, space, lang, cls)
  {
    var a', b' :| 0 <= a' <= b' <= |v| && AllBlank(v[..a']) && IsToken(v[a'..b'], lang, cls) && AllBlank(v[b'..]);
    assert forall m :: 0 <= m < a' ==> v[..a'][m] == v[m];
    assert v[a'..b'][0] == v[a'];
    BlankInNoName(v[a'], cls);
    assert a' < b' && !IsBlank(v[a']);
    RunEndIs(v, 0, Blank, cls, a');
    if b' < |v| {
      assert v[b'..][0] == v[b'];
    }
    TokenEndComplete(v, a', b', lang, cls);
    assert forall m :: b' <= m < |v| ==> v[b'..][m - b'] == v[m];
    RunEndIs(v, b', Blank, cls, |v|);
  }

  /** With blanks allowed, a value that passes the scan is accepted by the grammar. */
  lemma PaddedScanSound(v: seq<int>, space: int, lang: Lexical, cls: CharClasses)
    requires AsciiConsistent(cls) && space != 0 && ScanAccepts(v, space, lang, cls)
    ensures Accepts(v, space, lang, cls)
  {
    var a := RunEnd(v, 0, Blank, cls);
    var e := TokenEnd(v, a, lang, cls).value;
    TokenEndSound(v, a, lang, cls);
    assert AllBlank(v[..a]);
    assert AllBlank(v[e..]) by {
      assert forall m :: 0 <= m < |v| - e ==> v[e..][m] == v[e + m];
    }
  }

  /**
   * On ASCII text the full classes and the ASCII ones agree: for NCName the
   * value must start with a letter or '_' and go on with letters, digits,
   * '_', '-' or '.'.
   */
  lemma AsciiAgrees(v: seq<int>, space: int, lang: Lexical, cls: CharClasses)
    requires AsciiConsistent(cls)
    requires forall i :: 0 <= i < |v| ==> 0 <= v[i] < 0x80
    ensures Accepts(v, space, lang, cls) <==> Accepts(v, space, lang, AsciiClasses)
  {
    assert AsciiConsistent(AsciiClasses);
    AcceptsIffScan(v, space, lang, cls);
    AcceptsIffScan(v, space, lang, AsciiClasses);
    var a := if space != 0 then RunEnd(v, 0, Blank, cls) else 0;
    RunAgrees(v, 0, Blank, cls);
    TokenAgrees(v, a, lang, cls);
    var e := TokenEnd(v, a, lang, cls);
    if e.Some? {
      RunAgrees(v, e.value, Blank, cls);
    }
  }

  /** On ASCII each class test gives what its ASCII counterpart gives. */
  lemma KindAgrees(c: int, k: CharKind, cls: CharClasses)
    requires AsciiConsistent(cls) && 0 <= c < 0x80
    ensures InKind(c, k, cls) == InKind(c, k, AsciiClasses)
  {
  }

  lemma RunAgrees(v: seq<int>, i: nat, k: CharKind, cls: CharClasses)
    requires AsciiConsistent(cls) && i <= |v|
    requires forall i :: 0 <= i < |v| ==> 0 <= v[i] < 0x80
    ensures RunEnd(v, i, k, cls) == RunEnd(v, i, k, AsciiClasses)
  {
    forall m | 0 <= m < |v| {
      KindAgrees(v[m], k, cls);
    }
    RunEndIs(v, i, k, cls, RunEnd(v, i, k, AsciiClasses));
  }

  lemma SimpleAgrees(v: seq<int>, a: nat, start: CharKind, body: CharKind, cls: CharClasses)
    requires AsciiConsistent(cls) && a <= |v|
    requires forall i :: 0 <= i < |v| ==> 0 <= v[i] < 0x80
    ensures SimpleEnd(v, a, start, body, cls) == SimpleEnd(v, a, start, body, AsciiClasses)
  {
    if a < |v| {
      KindAgrees(v[a], start, cls);
      RunAgrees(v, a + 1, body, cls);
    }
  }

  lemma TokenAgrees(v: seq<int>, a: nat, lang: Lexical, cls: CharClasses)
    requires AsciiConsistent(cls) && a <= |v|
    requires forall i :: 0 <= i < |v| ==> 0 <= v[i] < 0x80
    ensures TokenEnd(v, a, lang, cls) == TokenEnd(v, a, lang, AsciiClasses)
  {
    SimpleAgrees(v, a, StartKind(lang), BodyKind(lang), cls);
    var e := SimpleEnd(v, a, StartKind(lang), BodyKind(lang), cls);
    if e.Some? && e.value < |v| {
      SimpleAgrees(v, e.value + 1, NCStart, NCChar, cls);
    }
  }

  // ---------------------------------------------------------------------------
  // The scans
  // ---------------------------------------------------------------------------

  /** `while (test(*cur)) cur++` */
  method SkipRun(v: seq<int>, i: nat, k: CharKind, cls: CharClasses) returns (j: nat)
    requires i <= |v| && IsText(v) && AsciiConsistent(cls)
    ensures j == RunEnd(v, i, k, cls)
  {
    TerminatorInNoKind(k, cls);
    j := i;
    while InKind(Cur(v, j), k, cls)
      invariant i <= j <= |v|
      invariant RunEnd(v, i, k, cls) == RunEnd(v, j, k, cls)
      decreases |v| - j
    {
      j := j + 1;
    }
  }

  /** The ASCII test for a token's first character. */
  function AsciiStartKind(lang: Lexical): CharKind
  {
    match lang
    case NCName => AsciiNCStart
    case QName => AsciiNCStart
    case Name => AsciiNameStart
    case NmToken => AsciiNameChar
  }

  /** The ASCII test for the characters after the first. */
  function AsciiBodyKind(lang: Lexical): CharKind
  {
    match lang
    case NCName => AsciiNCChar
    case QName => AsciiNCChar
    case Name => AsciiNameChar
    case NmToken => AsciiNameChar
  }

  /**
   * The quick ASCII scan. It reports success only when it reaches the
   * terminator; otherwise the caller rescans with the full classes.
   */
  method ScanAscii(v: seq<int>, space: int, lang: Lexical, cls: CharClasses) returns (accepted: bool)
    requires IsText(v) && AsciiConsistent(cls)
    ensures accepted ==> ScanAccepts(v, space, lang, cls)
  {
    var cur := 0;
    if space != 0 {
      cur := SkipRun(v, cur, Blank, cls);
    }
    ghost var a := cur;
    if !InKind(Cur(v, cur), AsciiStartKind(lang), cls) {
      return false;
    }
    cur := SkipRun(v, cur + 1, AsciiBodyKind(lang), cls);
    ghost var e1 := cur;
    if lang == QName && Cur(v, cur) == ':' as int {
      if !InKind(Cur(v, cur + 1), AsciiNCStart, cls) {
        return false;
      }
      cur := SkipRun(v, cur + 2, AsciiNCChar, cls);
    }
    ghost var e := cur;
    if space != 0 {
      cur := SkipRun(v, cur, Blank, cls);
    }
    accepted := Cur(v, cur) == 0;
    if accepted {
      AsciiRunsAreFull(v, space, lang, cls, a, e1, e);
    }
  }

  /** When the ASCII scan reaches the terminator, the full scan finds the same token. */
  lemma AsciiRunsAreFull(v: seq<int>, space: int, lang: Lexical, cls: CharClasses, a: nat, e1: nat, e: nat)
    requires IsText(v) && AsciiConsistent(cls)
    requires a == (if space != 0 then RunEnd(v, 0, Blank, cls) else 0)
    requires a < |v| && InKind(v[a], AsciiStartKind(lang), cls)
    requires e1 == RunEnd(v, a + 1, AsciiBodyKind(lang), cls)
    requires if lang == QName && e1 < |v| && v[e1] == ':' as int
             then e1 + 1 < |v| && InKind(v[e1 + 1], AsciiNCStart, cls) && e == RunEnd(v, e1 + 2, AsciiNCChar, cls)
             else e == e1
    requires (if space != 0 then RunEnd(v, e, Blank, cls) else e) == |v|
    ensures ScanAccepts(v, space, lang, cls)
  {
    ColonNotNC(cls);
    if e < |v| {
      BlankInNoName(v[e], cls);
    }
    AsciiKindIncluded(v[a], cls);
    if lang == QName && e1 < |v| && v[e1] == ':' as int {
      AsciiKindIncluded(v[e1 + 1], cls);
      AsciiRunFull(v, a + 1, e1, NCChar, cls);
      AsciiRunFull(v, e1 + 2, e, NCChar, cls);
      PrefixedEnd(v, a, e1, e, cls);
    } else {
      AsciiRunFull(v, a + 1, e, BodyKind(lang), cls);
      PlainEnd(v, a, e, lang, cls);
    }
  }

  /** A start character, a run up to a colon, a start character and a run up to e: a prefixed QName ending at e. */
  lemma PrefixedEnd(v: seq<int>, a: nat, e1: nat, e: nat, cls: CharClasses)
    requires a < e1 && e1 + 1 < |v| && e1 + 2 <= e <= |v| && v[e1] == ':' as int
    requires InKind(v[a], NCStart, cls) && RunEnd(v, a + 1, NCChar, cls) == e1
    requires InKind(v[e1 + 1], NCStart, cls) && RunEnd(v, e1 + 2, NCChar, cls) == e
    ensures TokenEnd(v, a, QName, cls) == Some(e)
  {
    assert SimpleEnd(v, a, NCStart, NCChar, cls) == Some(e1);
    assert SimpleEnd(v, e1 + 1, NCStart, NCChar, cls) == Some(e);
  }

  /** A start character and a run up to e not followed by a QName's colon: a token ending at e. */
  lemma PlainEnd(v: seq<int>, a: nat, e: nat, lang: Lexical, cls: CharClasses)
    requires a < e <= |v| && InKind(v[a], StartKind(lang), cls) && RunEnd(v, a + 1, BodyKind(lang), cls) == e
    requires !(lang == QName && e < |v| && v[e] == ':' as int)
    ensures TokenEnd(v, a, lang, cls) == Some(e)
  {
    assert SimpleEnd(v, a, StartKind(lang), BodyKind(lang), cls) == Some(e);
  }

  /** A run the ASCII test of body kind k accepts up to j, where the full test stops, is a full run up to j. */
  lemma AsciiRunFull(v: seq<int>, i: nat, j: nat, k: CharKind, cls: CharClasses)
    requires AsciiConsistent(cls) && (k == NCChar || k == NameChar)
    requires i <= j <= |v|
    requires forall m :: i <= m < j ==> InKind(v[m], if k == NCChar then AsciiNCChar else AsciiNameChar, cls)
    requires j < |v| ==> !InKind(v[j], k, cls)
    ensures RunEnd(v, i, k, cls) == j
  {
    forall m | i <= m < j
      ensures InKind(v[m], k, cls)
    {
      AsciiKindIncluded(v[m], cls);
    }
    RunEndIs(v, i, k, cls, j);
  }

  /** The token part of the rescan: None where it returns 1 before reaching the trailing blanks. */
  method ScanToken(v: seq<int>, a: nat, lang: Lexical, cls: CharClasses) returns (e: Option<nat>)
    requires a <= |v| && IsText(v) && AsciiConsistent(cls)
    ensures e == TokenEnd(v, a, lang, cls)
  {
    var cur := a;
    if !InKind(Cur(v, cur), StartKind(lang), cls) {
      TerminatorInNoKind(StartKind(lang), cls);
      return None;
    }
    cur := SkipRun(v, cur + 1, BodyKind(lang), cls);
    if lang == QName && Cur(v, cur) == ':' as int {
      if !InKind(Cur(v, cur + 1), NCStart, cls) {
        TerminatorInNoKind(NCStart, cls);
        return None;
      }
      cur := SkipRun(v, cur + 2, NCChar, cls);
    }
    return Some(cur);
  }

  /** The rescan with the full character classes: 0 when the value is accepted, 1 otherwise. */
  method ScanFull(v: seq<int>, space: int, lang: Lexical, cls: CharClasses) returns (r: int)
    requires IsText(v) && AsciiConsistent(cls)
    ensures r == (if ScanAccepts(v, space, lang, cls) then 0 else 1)
  {
    var cur := 0;
    if space != 0 {
      cur := SkipRun(v, cur, Blank, cls);
    }
    var e := ScanToken(v, cur, lang, cls);
    if e.None? {
      return 1;
    }
    cur := e.value;
    if space != 0 {
      cur := SkipRun(v, cur, Blank, cls);
    }
    if Cur(v, cur) != 0 {
      return 1;
    }
    return 0;
  }

  /** The shape all four validators share: -1 for NULL, 0 for a valid value, 1 otherwise. */
  method Validate(value: Option<seq<int>>, space: int, lang: Lexical, cls: CharClasses) returns (r: int)
    requires value.Some? ==> IsText(value.value)
    requires AsciiConsistent(cls)
    ensures value.None? ==> r == -1
    ensures value.Some? ==> r == (if Accepts(value.value, space, lang, cls) then 0 else 1)
  {
    if value.None? {
      return -1;
    }
    var v := value.value;
    AcceptsIffScan(v, space, lang, cls);
    var quick := ScanAscii(v, space, lang, cls);
    if quick {
      return 0;
    }
    r := ScanFull(v, space, lang, cls);
  }

  /** xmlValidateNCName */
  method ValidateNCName(value: Option<seq<int>>, space: int, cls: CharClasses) returns (r: int)
    requires value.Some? ==> IsText(value.value)
    requires AsciiConsistent(cls)
    ensures value.None? ==> r == -1
    ensures value.Some? ==> r == (if Accepts(value.value, space, NCName, cls) then 0 else 1)
  {
    r := Validate(value, space, NCName, cls);
  }

  /** xmlValidateQName */
  method ValidateQName(value: Option<seq<int>>, space: int, cls: CharClasses) returns (r: int)
    requires value.Some? ==> IsText(value.value)
    requires AsciiConsistent(cls)
    ensures value.None? ==> r == -1
    ensures value.Some? ==> r == (if Accepts(value.value, space, QName, cls) then 0 else 1)
  {
    r := Validate(value, space, QName, cls);
  }

  /** xmlValidateName */
  method ValidateName(value: Option<seq<int>>, space: int, cls: CharClasses) returns (r: int)
    requires value.Some? ==> IsText(value.value)
    requires AsciiConsistent(cls)
    ensures value.None? ==> r == -1
    ensures value.Some? ==> r == (if Accepts(value.value, space, Name, cls) then 0 else 1)
  {
    r := Validate(value, space, Name, cls);
  }

  /** xmlValidateNMToken */
  method ValidateNMToken(value: Option<seq<int>>, space: int, cls: CharClasses) returns (r: int)
    requires value.Some? ==> IsText(value.value)
    requires AsciiConsistent(cls)
    ensures value.None? ==> r == -1
    ensures value.Some? ==> r == (if Accepts(value.value, space, NmToken, cls) then 0 else 1)
  {
    r := Validate(value, space, NmToken, cls);
  }

  /** Every NCName is a QName, a Name and an Nmtoken. */
  lemma NCNameIsEverything(t: seq<int>, cls: CharClasses)
    requires IsToken(t, NCName, cls)
    ensures IsToken(t, QName, cls) && IsToken(t, Name, cls) && IsToken(t, NmToken, cls)
  {
  }
}
