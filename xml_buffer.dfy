/*
 * libxml2's xmlBuffer (Programs/ColladaConverter/Collada15/FCollada/LibXML/tree.c):
 * a growable byte buffer whose content array holds `use` bytes followed by a
 * terminating 0, inside an allocation of `size` bytes. An IMMUTABLE buffer
 * wraps memory it does not own and refuses every change except moving its
 * start (xmlBufferShrink) and being emptied.
 *
 * xmlChar bytes are modelled as chars. Allocation never fails here, and the
 * contents of freshly allocated memory are not relied on.
 */
module XmlBuffer {

  import opened Wrappers
  import opened XmlString

  /** xmlBufferAllocationScheme */
  datatype AllocScheme = DoubleIt | Exact | Immutable

  function Pow2(k: nat): (p: nat)
    ensures p >= 1
  {
    if k == 0 then 1 else 2 * Pow2(k - 1)
  }

  /** n is the first of oldSize * 2, oldSize * 4, ... that reaches request. */
  ghost predicate IsFirstDoubling(n: nat, oldSize: nat, request: nat)
  {
    exists k :: 1 <= k && n == oldSize * Pow2(k) && request <= n && (k == 1 || oldSize * Pow2(k - 1) < request)
  }

  /** xmlStrlen of memory that holds no terminator before its end. */
  function StrLen(s: seq<char>): (n: nat)
    ensures n <= |s| && '\0' !in s[..n] && (n < |s| ==> s[n] == '\0')
  {
    var n := IndexFrom(s, '\0', 0);
    assert forall k :: 0 <= k < n ==> s[..n][k] == s[k];
    n
  }

  /** The bytes xmlBufferAdd and xmlBufferAddHead take: len of them, or up to the terminator for -1. */
  function Span(str: seq<char>, len: int): seq<char>
    requires -1 <= len && (len >= 0 ==> len <= |str|)
  {
    if len == -1 then str[..StrLen(str)] else str[..len]
  }

  /** Every '"' written as "&quot;". */
  function Escape(s: seq<char>): seq<char>
    decreases |s|
  {
    if s == [] then []
    else (if s[0] == '"' then "&quot;" else [s[0]]) + Escape(s[1..])
  }

  /**
   * What xmlBufferWriteQuotedString writes: double quotes around a string
   * without '"'; single quotes around one with '"' but no '\''; otherwise
   * double quotes with every '"' escaped. NULL holds no quote and adds
   * nothing between the quotes.
   */
  function QuotedForm(text: Option<XmlStr>): seq<char>
  {
    match text
    case None => "\"\""
    case Some(s) =>
      if '"' !in s then "\"" + s + "\""
      else if '\'' !in s then "'" + s + "'"
      else "\"" + Escape(s) + "\""
  }

  class Buffer {
    /** The allocation (or, for an immutable buffer, the memory it wraps); null when there is none. */
    var content: array?<char>
    /** How far an immutable buffer's content pointer has been advanced by xmlBufferShrink. */
    var start: nat
    var use: nat
    var size: nat
    var alloc: AllocScheme

    ghost predicate Valid()
      reads this, content
    {
      if alloc == Immutable then
        (content == null ==> use == 0 && start == 0) && (content != null ==> start + use <= content.Length)
      else
        start == 0 &&
        (content == null ==> size == 0 && use == 0) &&
        (content != null ==> size == content.Length && use < size)
    }

    /** content[use] == 0 for a buffer that owns its content. */
    ghost predicate Terminated()
      reads this, content
      requires Valid()
    {
      alloc != Immutable && content != null ==> content[use] == '\0'
    }

    /** The used bytes. */
    function Contents(): seq<char>
      reads this, content
      requires Valid()
    {
      if content == null then [] else content[start..start + use]
    }

    /** xmlBufferLength */
    function Length(): (n: nat)
      reads this, content
      requires Valid()
      ensures n == |Contents()|
    {
      use
    }

    /** xmlBufferCreate: the default size and scheme are the library's globals. */
    constructor Create(scheme: AllocScheme, defaultSize: nat)
      requires defaultSize > 0
      ensures Valid() && Terminated() && fresh(content)
      ensures Contents() == [] && size == defaultSize && alloc == scheme
    {
      use := 0;
      size := defaultSize;
      alloc := scheme;
      start := 0;
      new;
      content := new char[defaultSize];
      content[0] := '\0';
    }

    /** xmlBufferCreateSize: two bytes more than asked, or no allocation at all for 0. */
    constructor CreateSize(scheme: AllocScheme, requested: nat)
      ensures Valid() && Terminated()
      ensures Contents() == [] && alloc == scheme
      ensures size == (if requested != 0 then requested + 2 else 0)
      ensures (content == null) == (requested == 0)
    {
      use := 0;
      alloc := scheme;
      start := 0;
      size := if requested != 0 then requested + 2 else 0;
      new;
      if size != 0 {
        content := new char[size];
        content[0] := '\0';
      } else {
        content := null;
      }
    }

    /**
     * xmlBufferCreateStatic: an immutable buffer over size bytes of mem, which
     * it neither copies nor changes; NULL for a NULL area or size 0.
     */
    static method CreateStatic(mem: array?<char>, size: nat) returns (b: Buffer?)
      requires mem != null ==> size <= mem.Length
      ensures (b == null) <==> (mem == null || size == 0)
      ensures b != null ==> fresh(b) && b.Valid() && b.alloc == Immutable && b.content == mem &&
                            b.size == size && b.Contents() == mem[..size]
    {
      if mem == null || size == 0 {
        return null;
      }
      b := new Buffer.CreateSize(Immutable, 0);
      b.use := size;
      b.size := size;
      b.content := mem;
    }

    /** xmlBufferSetAllocationScheme: an immutable buffer keeps its scheme. */
    method SetAllocationScheme(scheme: AllocScheme)
      requires Valid()
      modifies this
      ensures Valid()
      ensures alloc == (if old(alloc) == Immutable then Immutable else scheme)
      ensures content == old(content) && start == old(start) && use == old(use) && size == old(size)
      ensures Contents() == old(Contents())
    {
      if alloc == Immutable {
        return;
      }
      alloc := scheme;
    }

    /** xmlBufferEmpty: an owned allocation is cleared, an immutable buffer is pointed at "". */
    method Empty()
      requires Valid()
      modifies this, content
      ensures Valid() && Terminated()
      ensures Contents() == [] && alloc == old(alloc) && size == old(size)
      ensures old(content) == null ==> content == null
      ensures old(alloc) != Immutable ==> content == old(content)
      ensures old(alloc) != Immutable && content != null ==> forall k :: 0 <= k < content.Length ==> content[k] == '\0'
    {
      if content == null {
        return;
      }
      use := 0;
      if alloc == Immutable {
        // the static literal ""
        content := new char[1];
        content[0] := '\0';
        start := 0;
      } else {
        var a := content;
        var i := 0;
        while i < a.Length
          modifies a
          invariant 0 <= i <= a.Length
          invariant forall k :: 0 <= k < i ==> a[k] == '\0'
        {
          a[i] := '\0';
          i := i + 1;
        }
      }
    }

    /** xmlBufferShrink: drops the first len used bytes. */
    method Shrink(len: nat) returns (r: int)
      requires Valid()
      modifies this, content
      ensures Valid() && content == old(content) && alloc == old(alloc) && size == old(size)
      ensures len == 0 ==> r == 0 && Contents() == old(Contents())
      ensures len > old(use) ==> r == -1 && Contents() == old(Contents())
      ensures 0 < len <= old(use) ==> r == len && Contents() == old(Contents())[len..]
      ensures old(Terminated()) || 0 < len <= old(use) ==> Terminated()
    {
      if len == 0 {
        return 0;
      }
      if len > use {
        return -1;
      }
      if alloc == Immutable {
        use := use - len;
        start := start + len;
      } else {
        DropFront(len);
      }
      return len;
    }

    /** The memmove of xmlBufferShrink on an owned allocation: the bytes after the first len move to the front. */
    method DropFront(len: nat)
      requires Valid() && alloc != Immutable && content != null && 0 < len <= use
      modifies this, content
      ensures Valid() && Terminated() && content == old(content) && alloc == old(alloc) && size == old(size)
      ensures Contents() == old(Contents())[len..]
    {
      ghost var before := Contents();
      use := use - len;
      var a := content;
      var i := 0;
      while i < use
        modifies a
        invariant 0 <= i <= use && use + len < a.Length
        invariant forall k :: 0 <= k < i ==> a[k] == before[len + k]
        invariant forall k :: i <= k < a.Length ==> a[k] == old(a[k])
      {
        a[i] := a[i + len];
        i := i + 1;
      }
      a[use] := '\0';
      assert forall k :: 0 <= k < use ==> a[k] == before[len..][k];
      assert a[..use] == before[len..];
    }

    /** xmlBufferGrow: make room for len more bytes. `win32` selects the doubling variant built for Windows. */
    method Grow(len: nat, win32: bool) returns (r: int)
      requires Valid()
      modifies this
      ensures Valid() && alloc == old(alloc) && use == old(use) && Contents() == old(Contents())
      ensures old(alloc) == Immutable || len + old(use) < old(size) ==> r == 0 && content == old(content) && size == old(size)
      ensures old(alloc) != Immutable && len + old(use) >= old(size) ==>
                r == size - use && r > len && fresh(content) &&
                size == (if win32 && old(size) > len then old(size) * 2 else old(use) + len + 100)
      ensures old(Terminated()) && old(content) != null ==> Terminated()
    {
      if alloc == Immutable {
        return 0;
      }
      if len + use < size {
        return 0;
      }
      var newSize := if win32 && size > len then size * 2 else use + len + 100;
      Reallocate(newSize, true);
      return size - use;
    }

    /** xmlBufferResize: grow the allocation to hold at least request bytes. Returns 0 for an immutable buffer, 1 otherwise. */
    method Resize(request: nat) returns (r: int)
      requires Valid()
      modifies this
      ensures Valid() && alloc == old(alloc) && use == old(use) && Contents() == old(Contents())
      ensures old(alloc) == Immutable ==> r == 0 && content == old(content) && size == old(size)
      ensures old(alloc) != Immutable ==> r == 1
      ensures old(alloc) != Immutable && request < old(size) ==> content == old(content) && size == old(size)
      ensures old(alloc) != Immutable && request >= old(size) ==>
                fresh(content) && request <= size &&
                (alloc == Exact ==> size == request + 10) &&
                (alloc == DoubleIt && old(size) == 0 ==> size == request + 10) &&
                (alloc == DoubleIt && old(size) > 0 ==> IsFirstDoubling(size, old(size), request))
      ensures old(Terminated()) && old(content) != null ==> Terminated()
    {
      if alloc == Immutable {
        return 0;
      }
      if request < size {
        return 1;
      }
      var newSize: nat;
      if alloc == DoubleIt {
        if size != 0 {
          newSize := DoubledSize(size, request);
        } else {
          newSize := request + 10;
        }
      } else {
        newSize := request + 10;
      }
      Reallocate(newSize, size - use < 100);
      return 1;
    }

    /**
     * A new allocation of newSize bytes replaces the old one: realloc keeps
     * the whole old allocation (whole), otherwise only the used bytes and a
     * terminator are copied. A buffer without an allocation gets fresh memory.
     */
    method Reallocate(newSize: nat, whole: bool)
      requires Valid() && alloc != Immutable && newSize > size
      modifies this
      ensures Valid() && fresh(content) && size == newSize
      ensures alloc == old(alloc) && use == old(use) && Contents() == old(Contents())
      ensures old(Terminated()) && old(content) != null ==> Terminated()
    {
      var rebuf := new char[newSize];
      if content != null {
        if whole {
          CopyInto(content, rebuf, size);
          assert rebuf[..use] == rebuf[..size][..use];
        } else {
          CopyInto(content, rebuf, use);
          rebuf[use] := '\0';
        }
      }
      content := rebuf;
      size := newSize;
    }

    /** The memmove of xmlBufferAdd: str goes after the used bytes, then the terminator. */
    method AppendBytes(str: seq<char>)
      requires Valid() && alloc != Immutable && content != null && use + |str| < size
      modifies content, this
      ensures Valid() && Terminated() && content == old(content) && alloc == old(alloc) && size == old(size)
      ensures Contents() == old(Contents()) + str
    {
      ghost var before := Contents();
      var a := content;
      var i := 0;
      while i < |str|
        modifies a
        invariant 0 <= i <= |str| && use + |str| < a.Length
        invariant forall k :: 0 <= k < use ==> a[k] == before[k]
        invariant forall k :: 0 <= k < i ==> a[use + k] == str[k]
      {
        a[use + i] := str[i];
        i := i + 1;
      }
      use := use + |str|;
      a[use] := '\0';
      assert Contents() == before + str;
    }

    /** The two memmoves of xmlBufferAddHead: the used bytes move up by |str|, then str goes in front. */
    method PrependBytes(str: seq<char>)
      requires Valid() && alloc != Immutable && content != null && use + |str| < size
      modifies content, this
      ensures Valid() && Terminated() && content == old(content) && alloc == old(alloc) && size == old(size)
      ensures Contents() == str + old(Contents())
    {
      ghost var before := Contents();
      var a := content;
      assert before == a[..use];
      MoveUp(a, use, |str|);
      ghost var up := a[..];
      assert up[|str|..|str| + use] == before;
      CopyFront(a, str);
      ghost var moved := a[..];
      assert moved[..|str|] == str;
      assert moved[|str|..|str| + use] == before by {
        assert moved[|str|..] == up[|str|..];
      }
      use := use + |str|;
      a[use] := '\0';
      assert a[..use] == moved[..use];
      SplitAt(moved, |str|, use);
      assert Contents() == a[..use];
    }

    /**
     * xmlBufferAdd. str None is a NULL pointer; otherwise it is the memory
     * from str on, which must hold len bytes when len >= 0. Returns -1 and
     * changes nothing for NULL, an immutable buffer, len < -1 or an empty
     * string (-1 with len == -1); len == 0 returns 0 and changes nothing.
     */
    method Add(str: Option<seq<char>>, len: int) returns (r: int)
      requires Valid()
      requires str.Some? && len >= 0 ==> len <= |str.value|
      modifies this, content
      ensures content == old(content) || fresh(content)
      ensures old(content) != null ==> content != null
      ensures Valid() && alloc == old(alloc)
      ensures str.None? || old(alloc) == Immutable || len < -1 ==> r == -1 && Contents() == old(Contents())
      ensures str.Some? && old(alloc) != Immutable && len >= -1 ==>
                if Span(str.value, len) == [] then r == (if len == 0 then 0 else -1) && Contents() == old(Contents())
                else r == 0 && Contents() == old(Contents()) + Span(str.value, len) && Terminated()
      ensures old(Terminated()) && old(content) != null ==> Terminated()
    {
      if str.None? {
        return -1;
      }
      if alloc == Immutable {
        return -1;
      }
      if len < -1 {
        return -1;
      }
      if len == 0 {
        return 0;
      }
      var n := if len < 0 then StrLen(str.value) else len;
      if n <= 0 {
        return -1;
      }
      var bytes := str.value[..n];
      assert bytes == Span(str.value, len);
      var needSize := use + n + 2;
      if needSize > size {
        var ok := Resize(needSize);
      }
      AppendBytes(bytes);
      return 0;
    }

    /** xmlBufferAddHead: as xmlBufferAdd, but the bytes go in front of the used ones. */
    method AddHead(str: Option<seq<char>>, len: int) returns (r: int)
      requires Valid()
      requires str.Some? && len >= 0 ==> len <= |str.value|
      modifies this, content
      ensures content == old(content) || fresh(content)
      ensures old(content) != null ==> content != null
      ensures Valid() && alloc == old(alloc)
      ensures str.None? || old(alloc) == Immutable || len < -1 ==> r == -1 && Contents() == old(Contents())
      ensures str.Some? && old(alloc) != Immutable && len >= -1 ==>
                if Span(str.value, len) == [] then r == (if len == 0 then 0 else -1) && Contents() == old(Contents())
                else r == 0 && Contents() == Span(str.value, len) + old(Contents()) && Terminated()
      ensures old(Terminated()) && old(content) != null ==> Terminated()
    {
      if alloc == Immutable {
        return -1;
      }
      if str.None? {
        return -1;
      }
      if len < -1 {
        return -1;
      }
      if len == 0 {
        return 0;
      }
      var n := if len < 0 then StrLen(str.value) else len;
      if n <= 0 {
        return -1;
      }
      var bytes := str.value[..n];
      assert bytes == Span(str.value, len);
      var needSize := use + n + 2;
      if needSize > size {
        var ok := Resize(needSize);
      }
      PrependBytes(bytes);
      return 0;
    }

    /** xmlBufferCat: xmlBufferAdd of a whole terminated string. */
    method Cat(str: Option<XmlStr>) returns (r: int)
      requires Valid()
      modifies this, content
      ensures content == old(content) || fresh(content)
      ensures old(content) != null ==> content != null
      ensures Valid() && alloc == old(alloc)
      ensures str.None? || old(alloc) == Immutable || str == Some("") ==> r == -1 && Contents() == old(Contents())
      ensures str.Some? && str != Some("") && old(alloc) != Immutable ==>
                r == 0 && Contents() == old(Contents()) + str.value && Terminated()
      ensures old(Terminated()) && old(content) != null ==> Terminated()
    {
      if alloc == Immutable {
        return -1;
      }
      if str.None? {
        return -1;
      }
      assert StrLen(str.value) == |str.value|;
      assert str.value[..|str.value|] == str.value;
      r := Add(Some(str.value), -1);
    }

    /**
     * xmlBufferCCat: appends a C string byte by byte, growing to use + 10
     * when fewer than 10 bytes are free. The final terminator is written
     * even for an empty string, so that case needs an allocation.
     */
    method CCat(str: Option<XmlStr>) returns (r: int)
      requires Valid()
      requires alloc != Immutable && str.Some? && str.value == "" ==> content != null
      modifies this, content
      ensures content == old(content) || fresh(content)
      ensures old(content) != null ==> content != null
      ensures Valid() && alloc == old(alloc)
      ensures str.None? || old(alloc) == Immutable ==> r == -1 && Contents() == old(Contents())
      ensures str.Some? && old(alloc) != Immutable ==> r == 0 && Contents() == old(Contents()) + str.value && Terminated()
      ensures old(Terminated()) && old(content) != null ==> Terminated()
    {
      if alloc == Immutable {
        return -1;
      }
      if str.None? {
        return -1;
      }
      PushBytes(str.value);
      content[use] := '\0';
      return 0;
    }

    /** The copy loop of xmlBufferCCat, byte by byte. The terminator is written afterwards. */
    method PushBytes(s: seq<char>)
      requires Valid() && alloc != Immutable
      modifies this, content
      ensures Valid() && alloc == old(alloc)
      ensures content == old(content) || fresh(content)
      ensures old(content) != null || s != [] ==> content != null
      ensures Contents() == old(Contents()) + s
    {
      ghost var before := Contents();
      var i := 0;
      while i < |s|
        invariant 0 <= i <= |s|
        invariant Valid() && alloc == old(alloc)
        invariant old(content) != null || i > 0 ==> content != null
        invariant Contents() == before + s[..i]
        invariant content == old(content) || fresh(content)
        decreases |s| - i
      {
        PushByte(s[i]);
        ExtendPrefix(before, s, i);
        i := i + 1;
      }
      assert s[..|s|] == s;
    }

    /** One step of xmlBufferCCat: make room when fewer than 10 bytes are free, then store the byte. */
    method PushByte(c: char)
      requires Valid() && alloc != Immutable
      modifies this, content
      ensures Valid() && alloc == old(alloc) && content != null
      ensures content == old(content) || fresh(content)
      ensures Contents() == old(Contents()) + [c]
    {
      if use + 10 >= size {
        var ok := Resize(use + 10);
      }
      ghost var before := Contents();
      content[use] := c;
      use := use + 1;
      assert Contents() == before + [c];
    }

    /** xmlBufferWriteCHAR */
    method WriteCHAR(text: Option<XmlStr>)
      requires Valid()
      modifies this, content
      ensures content == old(content) || fresh(content)
      ensures old(content) != null ==> content != null
      ensures Valid() && alloc == old(alloc)
      ensures old(alloc) == Immutable || text.None? ==> Contents() == old(Contents())
      ensures old(alloc) != Immutable && text.Some? ==> Contents() == old(Contents()) + text.value
    {
      if alloc == Immutable {
        return;
      }
      var r := Cat(text);
    }

    /** xmlBufferWriteChar */
    method WriteChar(text: Option<XmlStr>)
      requires Valid()
      requires alloc != Immutable && text.Some? && text.value == "" ==> content != null
      modifies this, content
      ensures Valid() && alloc == old(alloc)
      ensures old(alloc) == Immutable || text.None? ==> Contents() == old(Contents())
      ensures old(alloc) != Immutable && text.Some? ==> Contents() == old(Contents()) + text.value
    {
      if alloc == Immutable {
        return;
      }
      var r := CCat(text);
    }

    /** xmlBufferAdd(buf, bytes, |bytes|) of a non-empty range on a buffer that owns its content. */
    method AddBytes(bytes: seq<char>)
      requires Valid() && alloc != Immutable && |bytes| > 0
      modifies this, content
      ensures Valid() && alloc == old(alloc) && content != null && Terminated()
      ensures content == old(content) || fresh(content)
      ensures Contents() == old(Contents()) + bytes
    {
      assert Span(bytes, |bytes|) == bytes;
      var r := Add(Some(bytes), |bytes|);
    }

    /**
     * The loop of xmlBufferWriteQuotedString for a string holding both
     * quotes: the stretches between '"' are added as they are, each '"' as
     * "&quot;".
     */
    method AddEscaped(s: XmlStr)
      requires Valid() && alloc != Immutable && content != null && Terminated()
      modifies this, content
      ensures Valid() && alloc == old(alloc) && content != null && Terminated()
      ensures content == old(content) || fresh(content)
      ensures Contents() == old(Contents()) + Escape(s)
    {
      ghost var before := Contents();
      var base := 0;
      var cur := 0;
      while cur < |s|
        invariant 0 <= base <= cur <= |s|
        invariant Valid() && alloc == old(alloc) && content != null && Terminated()
        invariant forall k :: base <= k < cur ==> s[k] != '"'
        invariant Contents() == before + Escape(s[..base])
        invariant content == old(content) || fresh(content)
        decreases |s| - cur
      {
        base := ScanStep(s, base, cur, before);
        cur := cur + 1;
      }
      AddRun(s[base..cur], "");
      EscapeStep(s, base, cur);
      Regroup(before, Escape(s[..base]), s[base..cur], "");
      assert s[..cur] == s;
    }

    /** One character of that loop: at a '"' the pending stretch and "&quot;" are added and the stretch restarts after it. */
    method ScanStep(s: XmlStr, base: nat, cur: nat, ghost before: seq<char>) returns (next: nat)
      requires base <= cur < |s| && forall k :: base <= k < cur ==> s[k] != '"'
      requires Valid() && alloc != Immutable && content != null && Terminated()
      requires Contents() == before + Escape(s[..base])
      modifies this, content
      ensures Valid() && alloc == old(alloc) && content != null && Terminated()
      ensures content == old(content) || fresh(content)
      ensures next == (if s[cur] == '"' then cur + 1 else base)
      ensures forall k :: next <= k < cur + 1 ==> s[k] != '"'
      ensures Contents() == before + Escape(s[..next])
    {
      if s[cur] == '"' {
        AddRun(s[base..cur], "&quot;");
        EscapeStep(s, base, cur);
        Regroup(before, Escape(s[..base]), s[base..cur], "&quot;");
        next := cur + 1;
      } else {
        next := base;
      }
    }

    /** One flush of that loop: the pending stretch when it is not empty, then tail when it is not empty. */
    method AddRun(run: seq<char>, tail: seq<char>)
      requires Valid() && alloc != Immutable && content != null && Terminated()
      modifies this, content
      ensures Valid() && alloc == old(alloc) && content != null && Terminated()
      ensures content == old(content) || fresh(content)
      ensures Contents() == old(Contents()) + run + tail
    {
      ghost var before := Contents();
      if run != [] {
        AddBytes(run);
      }
      assert Contents() == before + run;
      if tail != [] {
        AddBytes(tail);
      }
    }

    /** xmlBufferWriteQuotedString: appends QuotedForm(text) to a buffer that owns its content. */
    method WriteQuotedString(text: Option<XmlStr>)
      requires Valid()
      modifies this, content
      ensures Valid() && alloc == old(alloc)
      ensures old(alloc) == Immutable ==> Contents() == old(Contents())
      ensures old(alloc) != Immutable ==> Contents() == old(Contents()) + QuotedForm(text) && Terminated()
    {
      if alloc == Immutable {
        return;
      }
      if text.Some? && '"' in text.value {
        if '\'' in text.value {
          EncloseEscaped(text.value);
        } else {
          Enclose("'", text);
        }
      } else {
        Enclose("\"", text);
      }
    }

    /** q, the text as it is, q. */
    method Enclose(q: XmlStr, text: Option<XmlStr>)
      requires Valid() && alloc != Immutable && q != ""
      modifies this, content
      ensures Valid() && alloc == old(alloc) && Terminated()
      ensures Contents() == old(Contents()) + (q + (if text.Some? then text.value else "") + q)
    {
      ghost var c0 := Contents();
      var r := CCat(Some(q));
      ghost var c1 := Contents();
      assert c1 == c0 + q;
      r := Cat(text);
      ghost var c2 := Contents();
      assert c2 == c1 + (if text.Some? then text.value else "");
      r := CCat(Some(q));
      Regroup(c0, q, if text.Some? then text.value else "", q);
    }

    /** '"', the text with every '"' escaped, '"'. */
    method EncloseEscaped(text: XmlStr)
      requires Valid() && alloc != Immutable
      modifies this, content
      ensures Valid() && alloc == old(alloc) && Terminated()
      ensures Contents() == old(Contents()) + ("\"" + Escape(text) + "\"")
    {
      ghost var c0 := Contents();
      var r := CCat(Some("\""));
      AddEscaped(text);
      r := CCat(Some("\""));
      Regroup(c0, "\"", Escape(text), "\"");
    }
  }

  lemma ExtendPrefix(before: seq<char>, s: seq<char>, i: nat)
    requires i < |s|
    ensures before + s[..i] + [s[i]] == before + s[..i + 1]
  {
    assert s[..i + 1] == s[..i] + [s[i]];
  }

  lemma Regroup(a: seq<char>, b: seq<char>, c: seq<char>, d: seq<char>)
    ensures a + b + c + d == a + (b + c + d)
  {
  }

  /** The overlapping memmove of xmlBufferAddHead: the first m bytes move up by n, copied from the top down. */
  method MoveUp(a: array<char>, m: nat, n: nat)
    requires m + n <= a.Length
    modifies a
    ensures a[n..n + m] == old(a[..m])
  {
    ghost var orig := a[..];
    var i := m;
    while i > 0
      invariant 0 <= i <= m
      invariant forall k :: 0 <= k < i ==> a[k] == orig[k]
      invariant forall k :: i <= k < m ==> a[n + k] == orig[k]
    {
      i := i - 1;
      a[n + i] := a[i];
    }
    assert forall k :: 0 <= k < m ==> a[n..n + m][k] == orig[..m][k];
  }

  /** The memmove of str to the front of the allocation. */
  method CopyFront(a: array<char>, str: seq<char>)
    requires |str| <= a.Length
    modifies a
    ensures a[..|str|] == str
    ensures a[|str|..] == old(a[|str|..])
  {
    var i := 0;
    while i < |str|
      invariant 0 <= i <= |str|
      invariant forall k :: 0 <= k < i ==> a[k] == str[k]
      invariant forall k :: |str| <= k < a.Length ==> a[k] == old(a[k])
    {
      a[i] := str[i];
      i := i + 1;
    }
  }

  lemma SplitAt(x: seq<char>, n: nat, m: nat)
    requires n <= m <= |x|
    ensures x[..m] == x[..n] + x[n..m]
  {
  }

  /** memcpy of the first n bytes; realloc's copy of the old allocation. */
  method CopyInto(src: array<char>, dst: array<char>, n: nat)
    requires n <= src.Length && n <= dst.Length && src != dst
    modifies dst
    ensures dst[..n] == src[..n]
    ensures forall k :: n <= k < dst.Length ==> dst[k] == old(dst[k])
  {
    var i := 0;
    while i < n
      invariant 0 <= i <= n
      invariant forall k :: 0 <= k < i ==> dst[k] == src[k]
      invariant forall k :: n <= k < dst.Length ==> dst[k] == old(dst[k])
    {
      dst[i] := src[i];
      i := i + 1;
    }
  }

  /** The DOUBLEIT case of xmlBufferResize for a non-empty buffer: double until request fits. */
  method DoubledSize(size: nat, request: nat) returns (newSize: nat)
    requires size > 0
    ensures IsFirstDoubling(newSize, size, request)
    ensures newSize > size
  {
    newSize := size * 2;
    ghost var k := 1;
    while request > newSize
      invariant 1 <= k && newSize == size * Pow2(k) && (k == 1 || size * Pow2(k - 1) < request)
      invariant newSize > size
      decreases request - newSize
    {
      newSize := newSize * 2;
      k := k + 1;
    }
  }

  /** A stretch without '"' is escaped as it is; a '"' after it becomes "&quot;". */
  lemma EscapeStep(s: seq<char>, base: nat, cur: nat)
    requires base <= cur <= |s| && forall k :: base <= k < cur ==> s[k] != '"'
    ensures Escape(s[..cur]) == Escape(s[..base]) + s[base..cur]
    ensures cur < |s| && s[cur] == '"' ==> Escape(s[..cur + 1]) == Escape(s[..base]) + s[base..cur] + "&quot;"
  {
    EscapeRun(s[..cur], base);
    assert s[..cur][..base] == s[..base] && s[..cur][base..] == s[base..cur];
    if cur < |s| && s[cur] == '"' {
      EscapeQuoteAt(s, cur);
    }
  }

  lemma EscapeRun(s: seq<char>, base: nat)
    requires base <= |s| && forall k :: base <= k < |s| ==> s[k] != '"'
    ensures Escape(s) == Escape(s[..base]) + s[base..]
  {
    assert '"' !in s[base..] by {
      forall k | 0 <= k < |s| - base ensures s[base..][k] != '"' {}
    }
    EscapeQuoteFree(s[base..]);
    assert s == s[..base] + s[base..];
    EscapeConcat(s[..base], s[base..]);
  }

  lemma EscapeQuoteAt(s: seq<char>, cur: nat)
    requires cur < |s| && s[cur] == '"'
    ensures Escape(s[..cur + 1]) == Escape(s[..cur]) + "&quot;"
  {
    assert s[..cur + 1] == s[..cur] + [s[cur]];
    EscapeConcat(s[..cur], [s[cur]]);
  }

  /** Escaping leaves text without '"' as it is. */
  lemma {:induction false} EscapeQuoteFree(s: seq<char>)
    requires '"' !in s
    ensures Escape(s) == s
    decreases |s|
  {
    if s != [] {
      assert '"' !in s[1..];
      EscapeQuoteFree(s[1..]);
    }
  }

  /** Escaping leaves no '"'. */
  lemma {:induction false} EscapeHasNoQuote(s: seq<char>)
    ensures '"' !in Escape(s)
    decreases |s|
  {
    if s != [] {
      EscapeHasNoQuote(s[1..]);
    }
  }

  /** Escaping works piece by piece. */
  lemma {:induction false} EscapeConcat(a: seq<char>, b: seq<char>)
    ensures Escape(a + b) == Escape(a) + Escape(b)
    decreases |a|
  {
    if a == [] {
      assert a + b == b;
    } else {
      assert (a + b)[1..] == a[1..] + b;
      EscapeConcat(a[1..], b);
    }
  }

  /** Reading "&quot;" back as '"'. */
  function Unescape(t: seq<char>): seq<char>
    decreases |t|
  {
    if t == [] then []
    else if |t| >= 6 && t[..6] == "&quot;" then ['"'] + Unescape(t[6..])
    else [t[0]] + Unescape(t[1..])
  }

  /** Escaping is undone by reading the entity back, for text that holds no '&'. */
  lemma {:induction false} UnescapeEscape(s: seq<char>)
    requires '&' !in s
    ensures Unescape(Escape(s)) == s
    decreases |s|
  {
    if s != [] {
      assert '&' !in s[1..];
      UnescapeEscape(s[1..]);
      var e := Escape(s);
      if s[0] == '"' {
        assert e[..6] == "&quot;" && e[6..] == Escape(s[1..]);
      } else {
        assert e[0] == s[0] != '&' && e[1..] == Escape(s[1..]);
      }
    }
  }

  /**
   * The written form is a valid quoted literal: it opens and closes with the
   * same quote, that quote does not occur inside, and the inside gives the
   * string back (after reading "&quot;" back, for a string without '&').
   */
  lemma QuotedFormIsLiteral(s: XmlStr)
    requires '&' !in s
    ensures var q := QuotedForm(Some(s));
            |q| >= 2 && q[0] == q[|q| - 1] && q[0] in {'"', '\''} &&
            q[0] !in q[1..|q| - 1] && Unescape(q[1..|q| - 1]) == s
  {
    var q := QuotedForm(Some(s));
    if '"' !in s {
      assert q[1..|q| - 1] == s;
      UnescapeNoAmp(s);
    } else if '\'' !in s {
      assert q[1..|q| - 1] == s;
      UnescapeNoAmp(s);
    } else {
      assert q[1..|q| - 1] == Escape(s);
      EscapeHasNoQuote(s);
      UnescapeEscape(s);
    }
  }

  /** Text without '&' has nothing to read back. */
  lemma {:induction false} UnescapeNoAmp(s: seq<char>)
    requires '&' !in s
    ensures Unescape(s) == s
    decreases |s|
  {
    if s != [] {
      assert s[0] != '&';
      assert '&' !in s[1..];
      UnescapeNoAmp(s[1..]);
    }
  }
}
