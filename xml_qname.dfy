/*
 * The qualified-name helpers of libxml2's tree module
 * (Programs/ColladaConverter/Collada15/FCollada/LibXML/tree.c): building
 * "prefix:local" and cutting a name at its first ':' into prefix and local
 * part, after the productions QName ::= (Prefix ':')? LocalPart of section 4
 * of Namespaces in XML 1.0. None stands for a NULL pointer.
 */
module XmlQName {

  import opened Wrappers
  import opened XmlString

  /**
   * xmlBuildQName as written: NULL without a local name, the local name
   * itself without a prefix, and otherwise prefix ':' ncname. The caller's
   * buffer and its length only decide where the result is stored.
   */
  function BuildQName(ncname: Option<XmlStr>, prefix: Option<XmlStr>): (r: Option<XmlStr>)
    ensures ncname.None? <==> r.None?
    ensures ncname.Some? && prefix.None? ==> r == ncname
    ensures ncname.Some? && prefix.Some? ==>
              r.Some? && |r.value| == |prefix.value| + 1 + |ncname.value| &&
              r.value[..|prefix.value|] == prefix.value && r.value[|prefix.value|] == ':' &&
              r.value[|prefix.value| + 1..] == ncname.value
  {
    if ncname.None? then None
    else if prefix.None? then ncname
    else Some(prefix.value + ":" + ncname.value)
  }

  /** Where a name is cut: the index of its first ':', when it has one and does not start with it. */
  function CutIndex(name: XmlStr): (r: Option<nat>)
    ensures r.Some? <==> (|name| > 0 && name[0] != ':' && ':' in name)
    ensures r.Some? ==> 0 < r.value < |name| && name[r.value] == ':' &&
                        forall k :: 0 <= k < r.value ==> name[k] != ':'
  {
    if |name| > 0 && name[0] == ':' then None
    else
      var l := IndexFrom(name, ':', 0);
      if l < |name| then Some(l) else None
  }

  /**
   * The scan shared by xmlSplitQName2 and xmlSplitQName3: advance while the
   * character is neither the terminator nor ':'. Returns the stopping index.
   */
  method ScanToColon(name: XmlStr) returns (len: nat)
    ensures len <= |name|
    ensures len < |name| ==> name[len] == ':'
    ensures forall k :: 0 <= k < len ==> name[k] != ':'
    ensures len == IndexFrom(name, ':', 0)
  {
    len := 0;
    while At(name, len) != '\0' && At(name, len) != ':'
      invariant len <= |name|
      invariant forall k :: 0 <= k < len ==> name[k] != ':'
      invariant IndexFrom(name, ':', 0) == IndexFrom(name, ':', len)
      decreases |name| - len
    {
      len := len + 1;
    }
  }

  /**
   * xmlSplitQName2. `hasPrefixOut` says whether the prefix out-pointer is
   * non-NULL. Returns the local part and the prefix written through the
   * out-pointer. The check for a leading "xml:" sits under
   * #ifndef XML_XML_NAMESPACE, which the tree header defines, so it is not
   * part of the compiled function.
   */
  method SplitQName2(name: Option<XmlStr>, hasPrefixOut: bool) returns (local: Option<XmlStr>, prefix: Option<XmlStr>)
    ensures !hasPrefixOut || name.None? ==> local.None? && prefix.None?
    ensures hasPrefixOut && name.Some? ==>
              match CutIndex(name.value)
              case None => local.None? && prefix.None?
              case Some(l) => prefix == Some(name.value[..l]) && local == Some(name.value[l + 1..])
  {
    if !hasPrefixOut {
      return None, None;
    }
    prefix := None;
    if name.None? {
      return None, prefix;
    }
    var s := name.value;
    if At(s, 0) == ':' {
      return None, prefix;
    }
    var len := ScanToColon(s);
    if At(s, len) == '\0' {
      return None, prefix;
    }
    prefix := Some(s[..len]);
    local := Some(s[len + 1..]);
  }

  /**
   * xmlSplitQName3. `hasLenOut` says whether the length out-pointer is
   * non-NULL. Returns the local part, which points into name, and the prefix
   * length written through the out-pointer.
   */
  method SplitQName3(name: Option<XmlStr>, hasLenOut: bool) returns (local: Option<XmlStr>, len: Option<nat>)
    ensures name.None? || !hasLenOut ==> local.None? && len.None?
    ensures name.Some? && hasLenOut ==>
              match CutIndex(name.value)
              case None => local.None? && len.None?
              case Some(l) => len == Some(l) && local == Some(name.value[l + 1..])
  {
    if name.None? || !hasLenOut {
      return None, None;
    }
    var s := name.value;
    if At(s, 0) == ':' {
      return None, None;
    }
    var l := ScanToColon(s);
    if At(s, l) == '\0' {
      return None, None;
    }
    len := Some(l);
    local := Some(s[l + 1..]);
  }

  /**
   * Cutting a built name gives back its parts, provided the prefix is
   * non-empty and holds no ':'.
   */
  lemma SplitBuildRoundTrip(ncname: XmlStr, prefix: XmlStr)
    requires |prefix| > 0 && ':' !in prefix
    ensures var q := BuildQName(Some(ncname), Some(prefix)).value;
            CutIndex(q) == Some(|prefix|) && q[..|prefix|] == prefix && q[|prefix| + 1..] == ncname
  {
    var q := BuildQName(Some(ncname), Some(prefix)).value;
    assert q[0] == prefix[0];
    assert forall k :: 0 <= k < |prefix| ==> q[k] == prefix[k];
    assert IndexFrom(q, ':', 0) == |prefix| by {
      IndexFromFirst(q, ':', |prefix|);
    }
  }

  /** The scan stops at the first occurrence: IndexFrom is that index when nothing earlier matches. */
  lemma IndexFromFirst(s: string, c: char, i: nat)
    requires i < |s| && s[i] == c && forall k :: 0 <= k < i ==> s[k] != c
    ensures IndexFrom(s, c, 0) == i
  {
  }

  /**
   * Building and cutting agree both ways for prefixed names: a name is cut
   * exactly when it is prefix ':' local with a non-empty, colon-free prefix.
   */
  lemma CutIffBuilt(name: XmlStr)
    ensures CutIndex(name).Some? <==>
            exists l :: 0 < l < |name| && name[l] == ':' && ':' !in name[..l]
                        && BuildQName(Some(name[l + 1..]), Some(name[..l])) == Some(name)
  {
    match CutIndex(name)
    case Some(l) =>
      assert name[..l] + ":" + name[l + 1..] == name;
      assert ':' !in name[..l] by {
        forall k | 0 <= k < l ensures name[..l][k] != ':' {}
      }
    case None =>
  }

  /**
   * The comment above xmlBuildQName promises ncname for an empty prefix, but
   * the code only tests for NULL and builds ":ncname", a name that neither
   * split function accepts.
   */
  lemma BuildQNameEmptyPrefix(ncname: XmlStr)
    ensures BuildQName(Some(ncname), Some("")) == Some(":" + ncname)
    ensures CutIndex(BuildQName(Some(ncname), Some("")).value).None?
  {
    assert "" + ":" + ncname == ":" + ncname;
  }

  /** xmlBuildQName as its comment describes it: an empty prefix yields ncname, as NULL does. */
  function BuildQNameIntended(ncname: Option<XmlStr>, prefix: Option<XmlStr>): (r: Option<XmlStr>)
    ensures ncname.None? <==> r.None?
    ensures ncname.Some? && (prefix.None? || prefix.value == "") ==> r == ncname
    ensures prefix.Some? && prefix.value != "" ==> r == BuildQName(ncname, prefix)
  {
    if ncname.None? then None
    else if prefix.None? || prefix.value == "" then ncname
    else Some(prefix.value + ":" + ncname.value)
  }

  /**
   * With the intended behaviour every colon-free prefix, the empty one
   * included, round-trips: cutting gives the prefix back, and an unprefixed
   * colon-free local name is reported as not cut.
   */
  lemma IntendedRoundTrip(ncname: XmlStr, prefix: XmlStr)
    requires ':' !in prefix && ':' !in ncname
    ensures var q := BuildQNameIntended(Some(ncname), Some(prefix)).value;
            if prefix == "" then CutIndex(q).None? && q == ncname
            else CutIndex(q) == Some(|prefix|) && q[..|prefix|] == prefix && q[|prefix| + 1..] == ncname
  {
    if prefix != "" {
      SplitBuildRoundTrip(ncname, prefix);
    }
  }
}
