# Verified model of libxml2's tree module and four DAVA engine components

This project is a Dafny model of the sequential core of the DAVA engine repository, with the properties that code promises proved about it.

- **libxml2 tree module** (`Programs/ColladaConverter/Collada15/FCollada/LibXML/tree.c`), the vendored copy the COLLADA converter uses:
  - `xml_buffer.dfy`: the growable `xmlBuffer`. It is a class over an `array<char>` with `use`, `size` and an allocation scheme, including the immutable scheme that refuses every change. It covers creation, emptying, shrinking, growing, resizing, adding at the end and at the head, concatenation and quoted-string writing. Every method is proved against the buffer's contents, and the buffer keeps `use < size` and a terminator at `content[use]`.
  - `xml_qname.dfy`: building and cutting qualified names (Namespaces in XML 1.0, section 4).
  - `xml_validate.dfy`: the NCName, QName, Name and Nmtoken validators (XML 1.0, section 2.3). They are proved to decide the grammar exactly, and their ASCII fast path is proved to agree with the full rescan.
  - `xml_charref.dfy`: decoding of character references `&#x..;` / `&#..;` (XML 1.0, section 4.1), with a round trip through the written form.
  - `xml_tree.dfy`: the doubly linked node tree on the heap, with `parent`, `children`, `last`, `next`, `prev` and `properties`. It covers unlinking, adding a child, adding next, previous and last siblings, replacing, merging text nodes, and removing and looking up attributes. Each edit is proved to turn a well-formed list into the expected list: with the node inserted, removed or replaced.
  - `xml_doc.dfy`: the document-level queries. These are the root element, blank text nodes, `xml:space` inheritance (XML 1.0, section 2.10), namespace declaration and the in-scope namespace list, and the document and global compression modes.
- **`SkeletonComponent`** (`skeleton.dfy`): the joint-index map, the packed per-joint info word and the "first dirty joint" cursor.
- **`EditorUIPackageBuilder`** (`package_builder.dfy`): the stack-driven builder the UI editor's package loader drives, including the save and restore around imported packages.
- **`DebugDrawSystem`** (`debug_draw.dfy`): the resource editor's registration of entities per drawable component type, with swap-removal.
- **`dava_gen.py`** (`dava_gen.dfy`): the CMake generator and toolchain choice, the parsing of extra flags, and the split that finds the framework folder.

`wrappers.dfy` holds `Option`. `xml_string.dfy` models NUL-terminated `xmlChar` strings: the characters before the terminator, with reads past the end giving the terminator.

Modelling conventions:
- A NULL pointer argument is `None` (for strings) or `null` (for nodes and buffers).
- Memory release is recorded in a ghost `freed` set.
- The lists a walk visits are ghost sequences, tied to the pointer structure by `Chain`, `ChildList` and `AttrList`.
- Python's module globals and `platform.system()` are explicit parameters.

## Model

| member | source | states |
|---|---|---|
| XmlBuffer.Buffer.Length | Programs/ColladaConverter/Collada15/FCollada/LibXML/tree.c:7631-7637 | the length is the number of used bytes, the length of the contents |
| XmlBuffer.Buffer.Create | Programs/ColladaConverter/Collada15/FCollada/LibXML/tree.c:7320-7342 | a new buffer holds no bytes, is terminated, has the default size and the given scheme |
| XmlBuffer.Buffer.CreateSize | Programs/ColladaConverter/Collada15/FCollada/LibXML/tree.c:7352-7379 | a new buffer is empty and terminated; its size is the request plus 2, and there is no allocation for a request of 0 |
| XmlBuffer.Buffer.CreateStatic | Programs/ColladaConverter/Collada15/FCollada/LibXML/tree.c:7393-7411 | null exactly for a NULL area or size 0; otherwise an immutable buffer that wraps the memory and whose contents are its first size bytes |
| XmlBuffer.Buffer.SetAllocationScheme | Programs/ColladaConverter/Collada15/FCollada/LibXML/tree.c:7421-7436 | an immutable buffer keeps its scheme, any other takes the new one; contents unchanged |
| XmlBuffer.Buffer.Empty | Programs/ColladaConverter/Collada15/FCollada/LibXML/tree.c:7472-7487 | the contents become empty and the scheme and size are kept; an owned allocation is zeroed throughout, an immutable buffer is pointed at an empty string |
| XmlBuffer.Buffer.Shrink | Programs/ColladaConverter/Collada15/FCollada/LibXML/tree.c:7499-7519 | 0 and no change for len 0; -1 and no change for len beyond use; otherwise returns len and the contents lose exactly their first len bytes, still terminated |
| XmlBuffer.Buffer.DropFront | Programs/ColladaConverter/Collada15/FCollada/LibXML/tree.c:7513-7517 | the memmove of an owned buffer: the contents become their suffix after len, terminated, in the same allocation |
| XmlBuffer.Buffer.Grow | Programs/ColladaConverter/Collada15/FCollada/LibXML/tree.c:7531-7566 | contents never change; 0 and no reallocation for an immutable buffer or when len + use < size; otherwise the new size is use + len + 100 (or the doubled size in the Windows variant) and the returned free room exceeds len |
| XmlBuffer.Buffer.Resize | Programs/ColladaConverter/Collada15/FCollada/LibXML/tree.c:7649-7711 | never shrinks: 1 and no change when the request is below the size; otherwise at least the request fits, size is request + 10 for EXACT or an empty buffer and the first doubling that reaches the request for DOUBLEIT; contents kept; 0 for an immutable buffer |
| XmlBuffer.Buffer.Reallocate | Programs/ColladaConverter/Collada15/FCollada/LibXML/tree.c:7680-7708 | a fresh allocation of the new size keeps the used bytes and the terminator |
| XmlBuffer.DoubledSize | Programs/ColladaConverter/Collada15/FCollada/LibXML/tree.c:7667-7671 | the result is the first of size*2, size*4, ... that reaches the request |
| XmlBuffer.Buffer.AppendBytes | Programs/ColladaConverter/Collada15/FCollada/LibXML/tree.c:7763-7765 | the bytes go after the contents and the terminator after them |
| XmlBuffer.Buffer.PrependBytes | Programs/ColladaConverter/Collada15/FCollada/LibXML/tree.c:7825-7828 | the bytes go before the contents, terminated |
| XmlBuffer.Buffer.Add | Programs/ColladaConverter/Collada15/FCollada/LibXML/tree.c:7726-7767 | -1 and no change for NULL, an immutable buffer or len < -1; 0 and no change for len 0; otherwise 0 and the contents become old contents followed by the first len bytes (up to the terminator for -1), terminated |
| XmlBuffer.Buffer.AddHead | Programs/ColladaConverter/Collada15/FCollada/LibXML/tree.c:7782-7830 | the same cases as Add, with the new bytes placed in front of the old contents |
| XmlBuffer.Buffer.Cat | Programs/ColladaConverter/Collada15/FCollada/LibXML/tree.c:7843-7852 | -1 and no change for NULL, an immutable buffer or an empty string; otherwise the string is appended |
| XmlBuffer.Buffer.CCat | Programs/ColladaConverter/Collada15/FCollada/LibXML/tree.c:7865-7895 | -1 and no change for NULL or an immutable buffer; otherwise 0 and the string is appended, terminated |
| XmlBuffer.Buffer.PushBytes | Programs/ColladaConverter/Collada15/FCollada/LibXML/tree.c:7881-7893 | the byte-by-byte copy loop appends exactly the given bytes |
| XmlBuffer.Buffer.PushByte | Programs/ColladaConverter/Collada15/FCollada/LibXML/tree.c:7883-7891 | one step of that loop appends one byte, growing the buffer when fewer than 10 bytes are free |
| XmlBuffer.Buffer.WriteCHAR | Programs/ColladaConverter/Collada15/FCollada/LibXML/tree.c:7906-7913 | appends the text to a mutable buffer; an immutable buffer or NULL text leaves it as it was |
| XmlBuffer.Buffer.WriteChar | Programs/ColladaConverter/Collada15/FCollada/LibXML/tree.c:7924-7931 | as WriteCHAR for the char variant |
| XmlBuffer.Buffer.WriteQuotedString | Programs/ColladaConverter/Collada15/FCollada/LibXML/tree.c:7943-7992 | an immutable buffer is untouched; otherwise QuotedForm(text) is appended: double quotes when the text has no '"', single quotes when it has '"' but no '\'', else double quotes with every '"' written as &quot; |
| XmlBuffer.Buffer.AddEscaped | Programs/ColladaConverter/Collada15/FCollada/LibXML/tree.c:7959-7976 | the scanning loop appends Escape(s), every '"' as &quot; and all else as it is |
| XmlBuffer.Buffer.ScanStep | Programs/ColladaConverter/Collada15/FCollada/LibXML/tree.c:7960-7974 | one character of that loop keeps the invariant that the contents so far are the escaped prefix |
| XmlBuffer.Buffer.AddRun | Programs/ColladaConverter/Collada15/FCollada/LibXML/tree.c:7975-7977 | flushing the pending stretch and the closing text appends both |
| XmlBuffer.Buffer.Enclose | Programs/ColladaConverter/Collada15/FCollada/LibXML/tree.c:7979-7991 | the text between two copies of the quote |
| XmlBuffer.Buffer.EncloseEscaped | Programs/ColladaConverter/Collada15/FCollada/LibXML/tree.c:7958-7977 | '"', the escaped text, '"' |
| XmlBuffer.MoveUp | Programs/ColladaConverter/Collada15/FCollada/LibXML/tree.c:7825 | the overlapping memmove moves the first m bytes up by n |
| XmlBuffer.CopyFront | Programs/ColladaConverter/Collada15/FCollada/LibXML/tree.c:7826 | the memmove puts the string at the front and keeps the rest |
| XmlBuffer.CopyInto | Programs/ColladaConverter/Collada15/FCollada/LibXML/tree.c:7697-7699 | the copy keeps the first n bytes and leaves the rest of the destination |
| XmlBuffer.EscapeQuoteFree | Programs/ColladaConverter/Collada15/FCollada/LibXML/tree.c:7986-7991 | escaping leaves a string without '"' as it is, which is why the first two quoting cases need no escaping |
| XmlBuffer.EscapeHasNoQuote | Programs/ColladaConverter/Collada15/FCollada/LibXML/tree.c:7958-7977 | the escaped text holds no '"', so it cannot end the double-quoted literal |
| XmlBuffer.EscapeConcat | Programs/ColladaConverter/Collada15/FCollada/LibXML/tree.c:7959-7976 | escaping works piece by piece |
| XmlBuffer.UnescapeEscape | Programs/ColladaConverter/Collada15/FCollada/LibXML/tree.c:7962-7966 | reading &quot; back undoes the escaping (for text without '&') |
| XmlBuffer.QuotedFormIsLiteral | Programs/ColladaConverter/Collada15/FCollada/LibXML/tree.c:7943-7992 | the written form opens and closes with the same quote, that quote does not occur inside, and the inside reads back as the string |
| XmlBuffer.UnescapeNoAmp | Programs/ColladaConverter/Collada15/FCollada/LibXML/tree.c:7962-7966 | text without '&' reads back as itself |
| XmlQName.BuildQName | Programs/ColladaConverter/Collada15/FCollada/LibXML/tree.c:204-236 | None exactly without a local name; the local name itself for a NULL prefix; otherwise prefix ':' local name |
| XmlQName.ScanToColon | Programs/ColladaConverter/Collada15/FCollada/LibXML/tree.c:282-283 | the scan stops at the first ':' or at the end, and nothing before it is ':' |
| XmlQName.SplitQName2 | Programs/ColladaConverter/Collada15/FCollada/LibXML/tree.c:256-307 | NULL unless there is a ':' that is not the first character; then the part before the first ':' as prefix and the rest as local part |
| XmlQName.SplitQName3 | Programs/ColladaConverter/Collada15/FCollada/LibXML/tree.c:321-347 | the local part after the first ':' with the prefix length, and NULL for a leading ':' or no ':' |
| XmlQName.CutIndex | Programs/ColladaConverter/Collada15/FCollada/LibXML/tree.c:321-347 | a name is cut exactly when it is non-empty, does not start with ':' and holds one; the cut is at the first ':' |
| XmlQName.SplitBuildRoundTrip | Programs/ColladaConverter/Collada15/FCollada/LibXML/tree.c:321-347 | cutting a built name with a non-empty, colon-free prefix gives back the prefix length and the local name |
| XmlQName.CutIffBuilt | Programs/ColladaConverter/Collada15/FCollada/LibXML/tree.c:321-347 | a name is cut exactly when it is some non-empty colon-free prefix, ':' and a local name |
| XmlQName.BuildQNameEmptyPrefix | Programs/ColladaConverter/Collada15/FCollada/LibXML/tree.c:204-236 | as written, an empty prefix gives ":local", which neither split function cuts |
| XmlQName.BuildQNameIntended | Programs/ColladaConverter/Collada15/FCollada/LibXML/tree.c:188-201 | as documented, an empty prefix gives the local name, like a NULL one; other prefixes as BuildQName |
| XmlQName.IntendedRoundTrip | Programs/ColladaConverter/Collada15/FCollada/LibXML/tree.c:188-201 | with the documented behaviour every colon-free prefix, the empty one included, round-trips through SplitQName3 |
| XmlValidate.TerminatorInNoKind | Programs/ColladaConverter/Collada15/FCollada/LibXML/tree.c:430-431 | the terminator belongs to no character class, so every scan stops at the end |
| XmlValidate.ColonNotNC | Programs/ColladaConverter/Collada15/FCollada/LibXML/tree.c:516-521 | ':' is not an NCName character, which is what separates the parts of a QName |
| XmlValidate.AsciiKindIncluded | Programs/ColladaConverter/Collada15/FCollada/LibXML/tree.c:382-390 | what an ASCII test accepts the full test accepts, so the fast path never accepts wrongly |
| XmlValidate.RunEnd | Programs/ColladaConverter/Collada15/FCollada/LibXML/tree.c:415-421 | the end of the run of characters of one class |
| XmlValidate.TokenEnd | Programs/ColladaConverter/Collada15/FCollada/LibXML/tree.c:505-531 | where the greedy token scan ends, or None where it rejects |
| XmlValidate.TokenEndSound | Programs/ColladaConverter/Collada15/FCollada/LibXML/tree.c:505-531 | a scanned token is a token of the grammar |
| XmlValidate.TokenEndComplete | Programs/ColladaConverter/Collada15/FCollada/LibXML/tree.c:505-531 | every token of the grammar is found whole by the greedy scan |
| XmlValidate.AcceptsIffScan | Programs/ColladaConverter/Collada15/FCollada/LibXML/tree.c:397-433 | the scan accepts a value exactly when it is a token, with blanks around it only when spaces are allowed |
| XmlValidate.AsciiAgrees | Programs/ColladaConverter/Collada15/FCollada/LibXML/tree.c:369-434 | on ASCII text the full classes and the ASCII classes accept the same values (letters or '_' first, then letters, digits, '_', '-', '.' for NCName) |
| XmlValidate.SkipRun | Programs/ColladaConverter/Collada15/FCollada/LibXML/tree.c:415-421 | the skip loop stops where the run of the class ends |
| XmlValidate.ScanAscii | Programs/ColladaConverter/Collada15/FCollada/LibXML/tree.c:380-395 | the fast path accepts only values the grammar accepts, and whenever it reaches the end |
| XmlValidate.AsciiRunsAreFull | Programs/ColladaConverter/Collada15/FCollada/LibXML/tree.c:380-395 | a run found with the ASCII tests ends where the full run ends whenever the fast path reaches the end |
| XmlValidate.ScanToken | Programs/ColladaConverter/Collada15/FCollada/LibXML/tree.c:505-531 | the token part of the rescan computes TokenEnd |
| XmlValidate.ScanFull | Programs/ColladaConverter/Collada15/FCollada/LibXML/tree.c:397-433 | the rescan returns 0 exactly when the scan accepts |
| XmlValidate.Validate | Programs/ColladaConverter/Collada15/FCollada/LibXML/tree.c:369-434 | -1 for NULL, 0 for a value the grammar accepts, 1 otherwise |
| XmlValidate.ValidateNCName | Programs/ColladaConverter/Collada15/FCollada/LibXML/tree.c:369-434 | -1 for NULL; 0 exactly for an NCName, surrounded by blanks only when space is non-zero; 1 otherwise |
| XmlValidate.ValidateQName | Programs/ColladaConverter/Collada15/FCollada/LibXML/tree.c:449-543 | the same for QName ::= (NCName ':')? NCName |
| XmlValidate.ValidateName | Programs/ColladaConverter/Collada15/FCollada/LibXML/tree.c:556-618 | the same for Name |
| XmlValidate.ValidateNMToken | Programs/ColladaConverter/Collada15/FCollada/LibXML/tree.c:631-696 | the same for Nmtoken |
| XmlValidate.NCNameIsEverything | Programs/ColladaConverter/Collada15/FCollada/LibXML/tree.c:369-696 | every NCName is also a QName, a Name and an Nmtoken |
| XmlCharRef.DigitValue | Programs/ColladaConverter/Collada15/FCollada/LibXML/tree.c:1353-1358 | a digit's value is below the radix |
| XmlCharRef.Tmp | Programs/ColladaConverter/Collada15/FCollada/LibXML/tree.c:1347-1350 | tmp is the character at the cursor, or 0 from end or the terminator on |
| XmlCharRef.DigitsEnd | Programs/ColladaConverter/Collada15/FCollada/LibXML/tree.c:1351-1371 | the digits run ends at the first non-digit of the radix |
| XmlCharRef.CharRefAt | Programs/ColladaConverter/Collada15/FCollada/LibXML/tree.c:1344-1403 | the value and end of a reference: the digits' value with the ';' skipped, or 0 with the stopping character left in place |
| XmlCharRef.AccumulateDigits | Programs/ColladaConverter/Collada15/FCollada/LibXML/tree.c:1351-1371 | the loop accumulates the value of the digit run and stops at its end |
| XmlCharRef.DecodeCharRef | Programs/ColladaConverter/Collada15/FCollada/LibXML/tree.c:1344-1403 | the branch computes CharRefAt; xmlStringGetNodeList's copy at 1589-1636 is the case where end is the string's length |
| XmlCharRef.DigitChar | Programs/ColladaConverter/Collada15/FCollada/LibXML/tree.c:1353-1358 | the digit written for d is read back as d |
| XmlCharRef.ToDigits | Programs/ColladaConverter/Collada15/FCollada/LibXML/tree.c:1344-1403 | a non-empty digit string of the radix |
| XmlCharRef.DigitsRoundTrip | Programs/ColladaConverter/Collada15/FCollada/LibXML/tree.c:1351-1371 | reading the digits of n back gives n |
| XmlCharRef.DecodeReference | Programs/ColladaConverter/Collada15/FCollada/LibXML/tree.c:1344-1403 | decoding a written reference "&#x..;" or "&#..;" gives its number and consumes all of it |
| XmlCharRef.PrefixValueAtMost | Programs/ColladaConverter/Collada15/FCollada/LibXML/tree.c:1351-1371 | the value accumulated so far never exceeds the value of the whole digit run |
| XmlCharRef.AccumulatorFitsInt | Programs/ColladaConverter/Collada15/FCollada/LibXML/tree.c:1316-1391 | for a ';'-terminated reference whose value is below 2^31, every intermediate value of the `int` accumulator is below 2^31 too |
| XmlTree.Appended | Programs/ColladaConverter/Collada15/FCollada/LibXML/tree.c:5951-5967 | xmlNodeAddContent: NULL and "" add nothing, anything else is appended |
| XmlTree.Joined | Programs/ColladaConverter/Collada15/FCollada/LibXML/tree.c:3201-3203 | xmlStrcat(xmlStrdup(a), b) is NULL only when both are NULL, and its text is the concatenation |
| XmlTree.AddTextContent | Programs/ColladaConverter/Collada15/FCollada/LibXML/tree.c:5951-5967 | a text node's content becomes Appended(old, add); links unchanged |
| XmlTree.SetTextContent | Programs/ColladaConverter/Collada15/FCollada/LibXML/tree.c:5739-5760 | a text node's content is replaced and its children dropped; links unchanged |
| XmlTree.FreeNode | Programs/ColladaConverter/Collada15/FCollada/LibXML/tree.c:3753-3816 | exactly the node joins the freed set |
| XmlTree.SetTreeDoc | Programs/ColladaConverter/Collada15/FCollada/LibXML/tree.c:3011-3033 | the node takes the document; nothing else of it changes |
| XmlTree.UnlinkNode | Programs/ColladaConverter/Collada15/FCollada/LibXML/tree.c:3825-3870 | the node ends with no parent and no siblings; its neighbours point at each other; the parent's first (and last) pointer moves off it; the parent's list becomes the list without it; a detached node is untouched |
| XmlTree.DetachFromParent | Programs/ColladaConverter/Collada15/FCollada/LibXML/tree.c:3847-3864 | the parent's pointers stop naming the node and its parent is cleared |
| XmlTree.JoinNeighbours | Programs/ColladaConverter/Collada15/FCollada/LibXML/tree.c:3865-3869 | the neighbours are linked to each other and the node's sibling links are cleared |
| XmlTree.Unlinked | Programs/ColladaConverter/Collada15/FCollada/LibXML/tree.c:3825-3870 | the links left after unlinking form the list without the node |
| XmlTree.FirstMatch | Programs/ColladaConverter/Collada15/FCollada/LibXML/tree.c:6644-6686 | the position of the first attribute with the name (and namespace URI) in list order |
| XmlTree.HasProp | Programs/ColladaConverter/Collada15/FCollada/LibXML/tree.c:6644-6686 | xmlHasProp and xmlHasNsProp return the first matching attribute in list order, or null |
| XmlTree.FindPrevAttr | Programs/ColladaConverter/Collada15/FCollada/LibXML/tree.c:2280-2291 | the walk finds the attribute before cur, or null when cur follows none |
| XmlTree.RemoveProp | Programs/ColladaConverter/Collada15/FCollada/LibXML/tree.c:2254-2297 | 0 exactly when the attribute has a parent and is in its list, and then exactly it is freed and the list becomes the list without it; -1 and no change otherwise |
| XmlTree.RemovePropAsWritten | Programs/ColladaConverter/Collada15/FCollada/LibXML/tree.c:2273-2279 | as written, removing the head attribute leaves the new head's prev pointing at the freed attribute |
| XmlTree.AppendChild | Programs/ColladaConverter/Collada15/FCollada/LibXML/tree.c:3630-3644 | a new node becomes the last child, after the old last child or as the only child; the child list gains it at the end |
| XmlTree.LastAttr | Programs/ColladaConverter/Collada15/FCollada/LibXML/tree.c:3621-3625 | the walk reaches the last attribute |
| XmlTree.AppendAttr | Programs/ColladaConverter/Collada15/FCollada/LibXML/tree.c:3600-3628 | a new attribute becomes the head of an empty list or follows the last attribute; the attribute list gains it at the end |
| XmlTree.Dropped | Programs/ColladaConverter/Collada15/FCollada/LibXML/tree.c:3608-3619 | the list without the duplicate, when there is one |
| XmlTree.DropDuplicate | Programs/ColladaConverter/Collada15/FCollada/LibXML/tree.c:3608-3619 | an attribute of the same name and namespace (not cur) is unlinked and freed; otherwise nothing changes |
| XmlTree.AppendAttrAsWritten | Programs/ColladaConverter/Collada15/FCollada/LibXML/tree.c:3600-3628 | as written, the duplicate attribute is freed while still linked, so the element's attribute list keeps a freed node |
| XmlTree.MergeText | Programs/ColladaConverter/Collada15/FCollada/LibXML/tree.c:3560-3562 | the target's content becomes Appended(old, cur's content) and cur is freed |
| XmlTree.Adopt | Programs/ColladaConverter/Collada15/FCollada/LibXML/tree.c:3577-3582 | cur takes the parent and its document; the parent's lists stay as they were |
| XmlTree.Attach | Programs/ColladaConverter/Collada15/FCollada/LibXML/tree.c:3600-3645 | an attribute goes at the end of the attributes after its duplicate is removed, any other node at the end of the children |
| XmlTree.AttachAttr | Programs/ColladaConverter/Collada15/FCollada/LibXML/tree.c:3600-3628 | the attribute branch: duplicate unlinked and freed, then cur appended |
| XmlTree.AddChild | Programs/ColladaConverter/Collada15/FCollada/LibXML/tree.c:3527-3646 | NULL arguments give NULL; text merges into a text parent or a text last child (content appended, cur freed); a re-added child comes back unchanged; a text parent absorbs other nodes; otherwise cur is adopted and appended to the children (or attributes), and the result is the list with cur at the end |
| XmlTree.InsertAt | Programs/ColladaConverter/Collada15/FCollada/LibXML/tree.c:3229-3236 | the sequence with x inserted at position i |
| XmlTree.InsertedLinks | Programs/ColladaConverter/Collada15/FCollada/LibXML/tree.c:3229-3236 | linking x between two neighbours turns a list into the list with x inserted |
| XmlTree.SpliceAfter | Programs/ColladaConverter/Collada15/FCollada/LibXML/tree.c:3229-3234 | elem follows cur and cur's old next points back at elem |
| XmlTree.LinkAfter | Programs/ColladaConverter/Collada15/FCollada/LibXML/tree.c:3225-3236 | elem is linked after cur and becomes the last child when cur was |
| XmlTree.FixLast | Programs/ColladaConverter/Collada15/FCollada/LibXML/tree.c:3235-3236 | the parent's last pointer moves to elem when it was cur and elem is not an attribute, nothing else of the parent changes, and a list with elem inserted after cur becomes the parent's list |
| XmlTree.SpliceBefore | Programs/ColladaConverter/Collada15/FCollada/LibXML/tree.c:3319-3324 | elem precedes cur and cur's old previous points on to elem |
| XmlTree.LinkBefore | Programs/ColladaConverter/Collada15/FCollada/LibXML/tree.c:3315-3341 | elem is linked before cur and becomes the first attribute or first child when cur was |
| XmlTree.FixHead | Programs/ColladaConverter/Collada15/FCollada/LibXML/tree.c:3325-3341 | the parent's first attribute or first child moves back to elem when it was cur, nothing else of the parent changes, and a list with elem inserted before cur becomes the parent's list |
| XmlTree.InsertAttr | Programs/ColladaConverter/Collada15/FCollada/LibXML/tree.c:3209-3223 | the new attribute sits beside cur and an attribute of the same name and namespace is gone from the list, detached and freed |
| XmlTree.DropAttr | Programs/ColladaConverter/Collada15/FCollada/LibXML/tree.c:3218-3222 | the duplicate is unlinked, then freed |
| XmlTree.LinkAttr | Programs/ColladaConverter/Collada15/FCollada/LibXML/tree.c:3209-3236 | the duplicate is looked up before the new attribute is linked beside cur |
| XmlTree.InsertAttrAsWritten | Programs/ColladaConverter/Collada15/FCollada/LibXML/tree.c:3209-3236 | as written, the new attribute is linked beside cur while the freed duplicate stays in the same list |
| XmlTree.FreeAttr | Programs/ColladaConverter/Collada15/FCollada/LibXML/tree.c:3218-3222 | xmlFreeProp releases the attribute without touching the list it is linked into |
| XmlTree.AddNextSibling | Programs/ColladaConverter/Collada15/FCollada/LibXML/tree.c:3167-3238 | NULL arguments give NULL; a text elem merges into a text cur or into cur's text next sibling (and is freed); otherwise elem becomes cur's next sibling, with cur's parent and document, and the list becomes the list with elem after cur; an attribute replaces its duplicate |
| XmlTree.UnlinkBeside | Programs/ColladaConverter/Collada15/FCollada/LibXML/tree.c:3186 | unlinking elem does not disturb cur |
| XmlTree.PlaceAfter | Programs/ColladaConverter/Collada15/FCollada/LibXML/tree.c:3188-3237 | the merges, the attribute case and the plain insertion after elem is unlinked |
| XmlTree.InsertAfter | Programs/ColladaConverter/Collada15/FCollada/LibXML/tree.c:3225-3237 | elem takes cur's document and is linked after cur |
| XmlTree.AddPrevSibling | Programs/ColladaConverter/Collada15/FCollada/LibXML/tree.c:3257-3343 | the mirror of AddNextSibling: merges into cur or cur's text previous sibling, or elem becomes cur's previous sibling and the list has elem before cur |
| XmlTree.PlaceBefore | Programs/ColladaConverter/Collada15/FCollada/LibXML/tree.c:3278-3342 | the merges, the attribute case and the plain insertion after elem is unlinked |
| XmlTree.InsertBefore | Programs/ColladaConverter/Collada15/FCollada/LibXML/tree.c:3315-3342 | elem takes cur's document and is linked before cur |
| XmlTree.LastSibling | Programs/ColladaConverter/Collada15/FCollada/LibXML/tree.c:3385-3395 | the node after which xmlAddSibling appends |
| XmlTree.FindLast | Programs/ColladaConverter/Collada15/FCollada/LibXML/tree.c:3385-3395 | the parent's last pointer when it can be trusted, otherwise the walk along next; both give the last sibling |
| XmlTree.ChildListLast | Programs/ColladaConverter/Collada15/FCollada/LibXML/tree.c:3385-3391 | in a well-formed child list the last pointer is trusted and is the list's last node |
| XmlTree.AddSibling | Programs/ColladaConverter/Collada15/FCollada/LibXML/tree.c:3359-3420 | NULL arguments give NULL; a text elem merges into a text last sibling of the same name; otherwise elem follows the last sibling, becomes the parent's last child, and the list becomes the list with elem at the end |
| XmlTree.LinkLast | Programs/ColladaConverter/Collada15/FCollada/LibXML/tree.c:3407-3419 | elem takes cur's document, follows cur and is the parent's last child; a detached elem added after the last child extends the child list by elem |
| XmlTree.ReplacedLinks | Programs/ColladaConverter/Collada15/FCollada/LibXML/tree.c:3885-3949 | putting x in place of kids[i] with the same links gives the list with kids[i] replaced |
| XmlTree.Substitute | Programs/ColladaConverter/Collada15/FCollada/LibXML/tree.c:3922-3948 | cur takes orig's document, parent and neighbours; the parent's pointers move from orig to cur; orig is detached |
| XmlTree.SpliceOver | Programs/ColladaConverter/Collada15/FCollada/LibXML/tree.c:3925-3930 | cur sits between orig's neighbours, which point at it |
| XmlTree.FixEnds | Programs/ColladaConverter/Collada15/FCollada/LibXML/tree.c:3931-3945 | whichever parent pointer held orig now holds cur |
| XmlTree.ReplaceNode | Programs/ColladaConverter/Collada15/FCollada/LibXML/tree.c:3885-3949 | NULL for the same node or a parentless orig; a NULL cur just unlinks orig; a kind mismatch changes nothing; otherwise cur takes orig's place (the list with orig replaced by cur) and orig is detached and returned |
| XmlTree.TextMerge | Programs/ColladaConverter/Collada15/FCollada/LibXML/tree.c:5978-5994 | NULL first returns second, NULL second returns first; two text nodes of the same name merge: first's content gains second's, second is unlinked and freed, and the list loses second; otherwise nothing changes |
| XmlTree.UnlinkMerged | Programs/ColladaConverter/Collada15/FCollada/LibXML/tree.c:5990-5991 | unlinking second does not disturb first |
| XmlDoc.FirstElement | Programs/ColladaConverter/Collada15/FCollada/LibXML/tree.c:4961-4968 | the first element among the children, and none before it |
| XmlDoc.DocGetRootElement | Programs/ColladaConverter/Collada15/FCollada/LibXML/tree.c:4955-4969 | null for a NULL document; otherwise the first element child, or null when there is none |
| XmlDoc.IsBlankNode | Programs/ColladaConverter/Collada15/FCollada/LibXML/tree.c:7244-7264 | 1 exactly for a text or CDATA node whose content is absent or all blanks; 0 otherwise |
| XmlDoc.NsPropValue | Programs/ColladaConverter/Collada15/FCollada/LibXML/tree.c:6964-6983 | the value of the first attribute with the name in the namespace, or None exactly when there is none |
| XmlDoc.GetNsProp | Programs/ColladaConverter/Collada15/FCollada/LibXML/tree.c:6952-6985 | NULL for a NULL node; otherwise the first matching attribute's value |
| XmlDoc.FirstSettled | Programs/ColladaConverter/Collada15/FCollada/LibXML/tree.c:5172-5190 | the first ancestor whose xml:space is "preserve" or "default" |
| XmlDoc.SpaceMode | Programs/ColladaConverter/Collada15/FCollada/LibXML/tree.c:5168-5192 | 1 exactly when the nearest settled xml:space is "preserve", 0 when it is "default", -1 when none is settled |
| XmlDoc.GetSpacePreserve | Programs/ColladaConverter/Collada15/FCollada/LibXML/tree.c:5168-5192 | the walk up the ancestors returns SpaceMode of their xml:space values; -1 for NULL |
| XmlDoc.FirstSettledAt | Programs/ColladaConverter/Collada15/FCollada/LibXML/tree.c:5172-5190 | an unsettled prefix followed by a settled value pins the first settled index |
| XmlDoc.NewNs | Programs/ColladaConverter/Collada15/FCollada/LibXML/tree.c:750-811 | None for a non-element node, for the prefix "xml" or for a prefix already declared on the node; otherwise the declaration is appended; the node's prefixes stay unique |
| XmlDoc.FirstPerPrefixUnique | Programs/ColladaConverter/Collada15/FCollada/LibXML/tree.c:6035-6058 | the deduplicated list never repeats a prefix |
| XmlDoc.FirstPerPrefixCovers | Programs/ColladaConverter/Collada15/FCollada/LibXML/tree.c:6035-6058 | every declared prefix is in the deduplicated list |
| XmlDoc.FirstPerPrefixFirst | Programs/ColladaConverter/Collada15/FCollada/LibXML/tree.c:6035-6058 | each entry of the deduplicated list is the first declaration of its prefix |
| XmlDoc.AddIfNew | Programs/ColladaConverter/Collada15/FCollada/LibXML/tree.c:6035-6058 | one declaration is kept only when its prefix is new |
| XmlDoc.AddAll | Programs/ColladaConverter/Collada15/FCollada/LibXML/tree.c:6020-6061 | the declarations of one element are deduplicated onto the list |
| XmlDoc.GetNsList | Programs/ColladaConverter/Collada15/FCollada/LibXML/tree.c:6008-6066 | NULL when no ancestor declares anything; otherwise the declarations from the node up, first per prefix |
| XmlDoc.ClampMode | Programs/ColladaConverter/Collada15/FCollada/LibXML/tree.c:8018-8028 | modes in 0..9 are kept, below 0 gives 0, above 9 gives 9 |
| XmlDoc.GetDocCompressMode | Programs/ColladaConverter/Collada15/FCollada/LibXML/tree.c:8002-8007 | -1 for a NULL document, its compression otherwise |
| XmlDoc.SetDocCompressMode | Programs/ColladaConverter/Collada15/FCollada/LibXML/tree.c:8018-8028 | the document's compression becomes the clamped mode |
| XmlDoc.Settings.constructor | Programs/ColladaConverter/Collada15/FCollada/LibXML/tree.c:8037-8040 | the global mode starts at 0 |
| XmlDoc.Settings.GetCompressMode | Programs/ColladaConverter/Collada15/FCollada/LibXML/tree.c:8037-8040 | returns the global mode |
| XmlDoc.Settings.SetCompressMode | Programs/ColladaConverter/Collada15/FCollada/LibXML/tree.c:8050-8058 | the global mode becomes the clamped mode |
| Skeleton.MarkKeepsFields | Sources/Internal/Scene3D/Components/SkeletonComponent.h:92-96 | setting the marked-for-update flag keeps the parent and target fields and the other flag |
| Skeleton.FlagsClearOfFields | Sources/Internal/Scene3D/Components/SkeletonComponent.h:92-96 | both flags lie clear of the 8-bit parent field and the 8-bit target field at shift 8, and of each other |
| Skeleton.Min | Sources/Internal/Scene3D/Components/SkeletonComponent.h:173 | the smaller of the two |
| Skeleton.SkeletonComponent.constructor | Sources/Internal/Scene3D/Components/SkeletonComponent.h:89-116 | the member defaults: no joints, an empty map, start joint 0, a rebuild requested |
| Skeleton.SkeletonComponent.GetJointIndex | Sources/Internal/Scene3D/Components/SkeletonComponent.h:130-137 | the mapped index for a known uid, INVALID_JOINT_INDEX (0xff) otherwise |
| Skeleton.GetJointIndexInvalidIff | Sources/Internal/Scene3D/Components/SkeletonComponent.h:130-137 | when no uid maps to 0xff, the lookup gives 0xff exactly for unknown uids |
| Skeleton.SkeletonComponent.GetJointsCount | Sources/Internal/Scene3D/Components/SkeletonComponent.h:139-142 | the count is the length of the runtime arrays |
| Skeleton.SkeletonComponent.GetJoint | Sources/Internal/Scene3D/Components/SkeletonComponent.h:144-147 | a joint of the configuration; SetJoints shows it is the configured joint at that index |
| Skeleton.SkeletonComponent.GetJointTransform | Sources/Internal/Scene3D/Components/SkeletonComponent.h:155-159 | one of the local transforms; SetJointTransform shows it is the transform last set for that joint |
| Skeleton.SkeletonComponent.SetJoints | Sources/Internal/Scene3D/Components/SkeletonComponent.h:149-153 | the configuration is replaced (GetJoint reads it back) and a rebuild requested; runtime state unchanged |
| Skeleton.SkeletonComponent.Rebuild | Sources/Internal/Scene3D/Components/SkeletonComponent.h:176-179 | a rebuild is requested and nothing else changes |
| Skeleton.SkeletonComponent.SetJointTransform | Sources/Internal/Scene3D/Components/SkeletonComponent.h:167-174 | the joint is marked for update and GetJointTransform returns the new transform; no other joint's info or transform changes; the start joint becomes min(old, index), so it never grows |
| PackageBuilder.PropertiesSection.FindProperty | Tools/UIEditor_v2/Classes/UIControls/EditorUIPackageBuilder.cpp:227 | the property for the member exactly when the section has one |
| PackageBuilder.ControlNode.FindByName | Tools/UIEditor_v2/Classes/UIControls/EditorUIPackageBuilder.cpp:134 | a direct child with that name, or null exactly when no child has it |
| PackageBuilder.ResolveDescends | Tools/UIEditor_v2/Classes/UIControls/EditorUIPackageBuilder.cpp:132-137 | following a path of names leads down the tree through children |
| PackageBuilder.EditorUIPackageBuilder.constructor | Tools/UIEditor_v2/Classes/UIControls/EditorUIPackageBuilder.cpp:23-26 | no package, no open control, no current object or section |
| PackageBuilder.EditorUIPackageBuilder.BeginPackage | Tools/UIEditor_v2/Classes/UIControls/EditorUIPackageBuilder.cpp:33-39 | a new package and package node for the path; the rest of the state unchanged, and a builder that was valid has an empty stack and stays valid |
| PackageBuilder.EditorUIPackageBuilder.EndPackage | Tools/UIEditor_v2/Classes/UIControls/EditorUIPackageBuilder.cpp:41-44 | closing a package demands an open one and changes nothing: the built package, the stack and the current object and section stay |
| PackageBuilder.EditorUIPackageBuilder.ProcessImportedPackage | Tools/UIEditor_v2/Classes/UIControls/EditorUIPackageBuilder.cpp:46-76 | package node, stack, its paths, current object and section are restored, so a valid builder stays valid; the imported package's controls node, renamed after it, is appended to the imports; the loaded package is returned |
| PackageBuilder.EditorUIPackageBuilder.AddControlNode | Tools/UIEditor_v2/Classes/UIControls/EditorUIPackageBuilder.cpp:233-242 | the node is attached to the package's controls when no control is open, otherwise to the open control, and pushed |
| PackageBuilder.EditorUIPackageBuilder.BeginControlWithClass | Tools/UIEditor_v2/Classes/UIControls/EditorUIPackageBuilder.cpp:78-84 | a new control of the class is opened on top of the stack; its node is appended to the package's controls when no control was open, otherwise to the open control's children; the package, the current object and section stay, and a valid builder stays valid |
| PackageBuilder.EditorUIPackageBuilder.BeginControlWithCustomClass | Tools/UIEditor_v2/Classes/UIControls/EditorUIPackageBuilder.cpp:86-93 | the same as BeginControlWithClass, including where the node is attached, with the custom class name recorded on the control |
| PackageBuilder.EditorUIPackageBuilder.BeginControlWithPath | Tools/UIEditor_v2/Classes/UIControls/EditorUIPackageBuilder.cpp:124-143 | the control found by following the names from the open control is pushed |
| PackageBuilder.EditorUIPackageBuilder.EndControl | Tools/UIEditor_v2/Classes/UIControls/EditorUIPackageBuilder.cpp:151-157 | exactly the top entry is popped |
| PackageBuilder.EditorUIPackageBuilder.BeginControlPropretiesSection | Tools/UIEditor_v2/Classes/UIControls/EditorUIPackageBuilder.cpp:159-163 | properties go to the named section of the open control and to its control; the package, the stack and its paths are unchanged, so a valid builder stays valid |
| PackageBuilder.EditorUIPackageBuilder.EndControlPropertiesSection | Tools/UIEditor_v2/Classes/UIControls/EditorUIPackageBuilder.cpp:165-169 | current section and object are reset to null; the package, the stack and its paths are unchanged, so a valid builder stays valid |
| PackageBuilder.EditorUIPackageBuilder.BeginBgPropertiesSection | Tools/UIEditor_v2/Classes/UIControls/EditorUIPackageBuilder.cpp:171-189 | with a section that has properties, its background (a fresh one when it had none) becomes current and is returned; otherwise null and no change; only that one section can change; the package, the stack and its paths are unchanged, so a valid builder stays valid |
| PackageBuilder.EditorUIPackageBuilder.EndBgPropertiesSection | Tools/UIEditor_v2/Classes/UIControls/EditorUIPackageBuilder.cpp:191-195 | current section and object are reset to null; the package, the stack and its paths are unchanged, so a valid builder stays valid |
| PackageBuilder.EditorUIPackageBuilder.BeginInternalControlSection | Tools/UIEditor_v2/Classes/UIControls/EditorUIPackageBuilder.cpp:197-215 | as the background section, for the internal control: a fresh one when the section had none, only that section can change; the package, the stack and its paths are unchanged, so a valid builder stays valid |
| PackageBuilder.EditorUIPackageBuilder.EndInternalControlSection | Tools/UIEditor_v2/Classes/UIControls/EditorUIPackageBuilder.cpp:217-221 | current section and object are reset to null; the package, the stack and its paths are unchanged, so a valid builder stays valid |
| PackageBuilder.EditorUIPackageBuilder.ProcessProperty | Tools/UIEditor_v2/Classes/UIControls/EditorUIPackageBuilder.cpp:223-231 | the value is written exactly when object and section are set, the member is editable, the property exists and the value is typed; otherwise nothing changes |
| DebugDraw.DrawableTypes | Programs/ResourceEditor/Classes/DebugDraw/Private/DebugDrawSystem.cpp:36-39 | exactly the sound, wind, geo-decal and light components have a drawing function |
| DebugDraw.ToUInt32 | Programs/ResourceEditor/Classes/DebugDraw/Private/DebugDrawSystem.cpp:55 | the uint32 conversion reduces modulo 2^32 |
| DebugDraw.ObjectTypeColor | Programs/ResourceEditor/Classes/DebugDraw/Private/DebugDrawSystem.cpp:55-62 | colors[type] for an index in range; red otherwise, a negative type wrapping to a large index |
| DebugDraw.Entity.GetComponentCount | Programs/ResourceEditor/Classes/DebugDraw/Private/DebugDrawSystem.cpp:77 | the number of the entity's components of a type: positive exactly when it has one, never more than all its components |
| DebugDraw.SwapRemoveContents | Programs/ResourceEditor/Classes/DebugDraw/Private/DebugDrawSystem.cpp:87 | swap-removal takes away one occurrence of the entity and keeps everything else |
| DebugDraw.SwapRemoveNoDuplicates | Programs/ResourceEditor/Classes/DebugDraw/Private/DebugDrawSystem.cpp:91 | on a duplicate-free list, swap-removal removes the entity completely and keeps the list duplicate-free |
| DebugDraw.DebugDrawSystem.constructor | Programs/ResourceEditor/Classes/DebugDraw/Private/DebugDrawSystem.cpp:27-40 | no entities, no lists, and drawing functions for exactly the four drawable types |
| DebugDraw.DebugDrawSystem.SetRequestedObjectType | Programs/ResourceEditor/Classes/DebugDraw/Private/DebugDrawSystem.cpp:46-64 | the type is stored; unless it is ESOT_NONE the colour becomes ObjectTypeColor(type, colors) |
| DebugDraw.DebugDrawSystem.GetRequestedObjectType | Programs/ResourceEditor/Classes/DebugDraw/Private/DebugDrawSystem.cpp:66-69 | returns the stored type |
| DebugDraw.Registered | Programs/ResourceEditor/Classes/DebugDraw/Private/DebugDrawSystem.cpp:99-111 | the entity is added to a drawable type's list unless already present; other types leave the map as it is |
| DebugDraw.WithEntityLists | Programs/ResourceEditor/Classes/DebugDraw/Private/DebugDrawSystem.cpp:71-83 | listing an entity under the types of its components all at once: lists exist for exactly the old types and its drawable types, each of those holds the entity, no other entity appears and every other list is untouched |
| DebugDraw.RegisterAllIsWithEntity | Programs/ResourceEditor/Classes/DebugDraw/Private/DebugDrawSystem.cpp:71-83 | registering the components one after another, as the loop does, gives exactly the all-at-once lists, whatever the visiting order |
| DebugDraw.RegisteredStep | Programs/ResourceEditor/Classes/DebugDraw/Private/DebugDrawSystem.cpp:75-81 | one more RegisterComponent after the first components extends the all-at-once lists by that component's type |
| DebugDraw.RegisteredStepAt | Programs/ResourceEditor/Classes/DebugDraw/Private/DebugDrawSystem.cpp:75-81 | the same for the list of a single type |
| DebugDraw.DebugDrawSystem.RegisterComponent | Programs/ResourceEditor/Classes/DebugDraw/Private/DebugDrawSystem.cpp:95-112 | the map becomes Registered(map, type, entity); lists stay duplicate-free |
| DebugDraw.DebugDrawSystem.AddEntity | Programs/ResourceEditor/Classes/DebugDraw/Private/DebugDrawSystem.cpp:71-83 | the entity is appended to the entities, and the map becomes exactly WithEntity of the old map: the entity appended once to the list of each drawable type it has, every other list unchanged |
| DebugDraw.DebugDrawSystem.WithoutEntity | Programs/ResourceEditor/Classes/DebugDraw/Private/DebugDrawSystem.cpp:89-92 | every list with the entity swap-removed; no list is dropped |
| DebugDraw.DebugDrawSystem.RemoveEntity | Programs/ResourceEditor/Classes/DebugDraw/Private/DebugDrawSystem.cpp:85-93 | the entity leaves the entities and no list holds it afterwards |
| DebugDraw.DebugDrawSystem.UnregisterComponent | Programs/ResourceEditor/Classes/DebugDraw/Private/DebugDrawSystem.cpp:114-124 | the entity leaves the type's list only when it has at most one component of that type |
| DebugDraw.DebugDrawSystem.DrawComponent | Programs/ResourceEditor/Classes/DebugDraw/Private/DebugDrawSystem.cpp:126-139 | the drawing function is applied to the type's list in order, or to nothing |
| DavaGen.LowerIdempotent | Build/dava_gen.py:95 | lower-casing twice is lower-casing once |
| DavaGen.GetProjectType | Build/dava_gen.py:94-114 | the generator from the table: Xcode for macos/ios, Visual Studio 12 for windows, the android string, "" otherwise |
| DavaGen.AndroidGenerator | Build/dava_gen.py:101-112 | an Eclipse prefix unless console, then "Mingw Makefiles" for MinGW followed by "NMake Makefiles" for Windows or "Unix Makefiles" for every other host |
| DavaGen.ProjectTypeEmptyIffUnsupported | Build/dava_gen.py:94-114 | the result is "" exactly for an unknown platform |
| DavaGen.ProjectTypeIgnoresCase | Build/dava_gen.py:95 | the platform is compared case-insensitively |
| DavaGen.GetToolchain | Build/dava_gen.py:117-129 | the base plus the ios or android toolchain file for exactly "ios" and "android"; "" otherwise |
| DavaGen.ParseAdditionalParams | Build/dava_gen.py:43-60 | true and no change for an absent or empty list; otherwise the parse of the list |
| DavaGen.ParseOkIffAllKnown | Build/dava_gen.py:50-59 | success exactly when every parameter is console or uap in some case |
| DavaGen.ParseOnlySetsFlags | Build/dava_gen.py:50-59 | flags are only ever set, so those set before an unknown parameter stay set |
| DavaGen.ParseSetsConsole | Build/dava_gen.py:50-59 | on success the console flag is set exactly when it was or "console" was given |
| DavaGen.ReSplit | Build/dava_gen.py:77-78 | re.split with one group gives an odd number of pieces |
| DavaGen.ReSplitJoin | Build/dava_gen.py:77-78 | the pieces join back to the path |
| DavaGen.FrameworkPath | Build/dava_gen.py:73-86 | the framework folder, when there is one, is a leading part of the '/'-terminated path and ends with '/' |
| DavaGen.SplitHead | Build/dava_gen.py:80-83 | when the split has at least three pieces, the first two together are the path up to the '/' that closes the match |
| DavaGen.FrameworkPathCharacterized | Build/dava_gen.py:73-86 | the framework path exists exactly when "dava.framework" occurs, and is the path cut after the first '/' following the leftmost occurrence |
| DavaGen.OccurrenceMatches | Build/dava_gen.py:73-78 | thanks to the appended '/', any occurrence of the folder name gives a match |
| XmlBuffer.StrLen | Programs/ColladaConverter/Collada15/FCollada/LibXML/tree.c:7747-7748 | xmlStrlen: the length up to the first terminator, with no terminator before it |
| XmlBuffer.Buffer.AddBytes | Programs/ColladaConverter/Collada15/FCollada/LibXML/tree.c:7965-7966 | xmlBufferAdd of a non-empty range appends exactly those bytes |
| XmlTree.Without | Programs/ColladaConverter/Collada15/FCollada/LibXML/tree.c:3825-3870 | the list with its i-th node removed is one shorter and keeps the order of the rest |
| XmlTree.Bypass | Programs/ColladaConverter/Collada15/FCollada/LibXML/tree.c:2282-2288 | the attribute before cur skips it, the one after points back, cur is freed, and the list becomes the list without cur |
| XmlTree.DropHead | Programs/ColladaConverter/Collada15/FCollada/LibXML/tree.c:2274-2278 | the head attribute is dropped, the new head's prev is cleared, cur is freed, and the list becomes the list without its head |
| PackageBuilder.PropertiesSection.CreateAttached | Tools/UIEditor_v2/Classes/UIControls/EditorUIPackageBuilder.cpp:177-178 | CreateControlBackground / CreateInternalControl leave the section with a new object |
| DebugDraw.IndexOf | Programs/ResourceEditor/Classes/DebugDraw/Private/DebugDrawSystem.cpp:105 | the position of the first occurrence of the entity |
| DavaGen.Lower | Build/dava_gen.py:95 | lower-casing keeps the length and lower-cases each ASCII letter |

## Left out

- Allocation failure is not modelled: every `malloc`/`realloc` in tree.c succeeds. Dictionary interning (`xmlDictOwns`) is not modelled either, and names are compared by their characters rather than by dictionary pointers.
- xmlGetNsList's array doubling (`maxns`) is not modelled: the result is a sequence.
- xmlBufferCreate's default size and scheme are library globals; here they are parameters.
- Register/deregister callbacks, and the ID table updates in xmlFreeProp, are not modelled.
- XmlTree.HasProp: the DTD fallback of xmlHasProp and xmlHasNsProp (`xmlCheckDTD`, the attribute declarations of the internal and external subsets) is not modelled. XmlDoc.GetNsProp lacks the same fallback of xmlGetNsProp. These entity and DTD tables are not part of this model.
- XmlDoc.GetNsProp: the call with a NULL namespace goes to xmlGetNoNsProp, which is not part of this model; the namespace is always given. An attribute's value (`xmlNodeListGetString` of its children) is modelled by its `content`.
- XmlTree.SetTreeDoc: sets the document of the moved node only; the C code also walks its children and attributes.
- XmlTree.FreeNode: records the node as freed; the recursive freeing of its subtree is not modelled.
- XmlTree.AddNextSibling: the list-level result is stated for a node elem that is detached before the call. The same holds for XmlTree.AddPrevSibling, XmlTree.AddSibling and XmlTree.ReplaceNode. For an attribute that still has a parent, the caller must pass it detached (a precondition).
- XmlTree.AddSibling: adding the last sibling after itself makes it its own next sibling in the C code. The model states that case (`elem == cur ==> elem.next == elem` in LinkLast) but proves no list for it.
- XmlTree.TextMerge: merging a node with itself returns a freed node in the C code; the model states only that the node is detached and freed.
- XmlTree.UnlinkNode: the DTD case (clearing the document's `intSubset`/`extSubset`) is not modelled.
- XmlValidate.ValidateNCName and its three siblings: the Unicode tables behind `IS_LETTER`, `IS_DIGIT`, `IS_COMBINING` and `IS_EXTENDER` are a parameter, constrained only to agree with XML 1.0 on ASCII. The UTF-8 decoding of `CUR_SCHAR` is taken as already done: values are sequences of code points.
- XmlCharRef.CharRefAt: `charval` is a C `int` (tree.c:1316); the model's value is unbounded, so a reference whose digits overflow 2^31 - 1 (undefined behaviour in C) is not modelled. AccumulatorFitsInt shows the model is exact when a ';'-terminated value is below 2^31.
- XmlCharRef.AccumulateDigits: the accumulator is unbounded; the C loop's `int` overflows on a digit run whose value passes 2^31 - 1, also when the run ends without ';'.
- XmlCharRef.DecodeCharRef: the same unbounded `charval`, for both copies of the branch (tree.c:1344-1403 and 1589-1636).
- XmlCharRef.DecodeReference: the round trip holds in C only for n below 2^31; for larger n the C accumulator overflows.
- XmlBuffer: `size_t` arithmetic (`use`, `size`, the growth computations) is unbounded; wrap-around of sizes near SIZE_MAX is not modelled.
- XmlBuffer.Buffer.CCat: appending an empty string to a buffer without an allocation writes through a NULL pointer in the C code; callers must not do that.
- The namespace URI of the `xml` prefix (`XML_XML_NAMESPACE`) comes from tree.h, which is not part of this model. It is written out as Namespaces in XML 1.0, section 3 gives it.
- xmlStringGetNodeList and xmlStringLenGetNodeList are modelled only in their character-reference branches. Entity references and text-node creation need the entity tables.
- The rest of tree.c is not modelled: copying, serialisation, xmlGetNodePath, xmlNodeGetBase and the DOM wrappers. xmlBufferDump writes to a FILE.
- SkeletonComponent.h: the JointTransform arithmetic (TransformPoint, AppendTransform, GetInverse, TransformAABBox) works on quaternions and floats. Transforms are opaque payload here.
- Skeleton.SkeletonComponent.GetJoint: the source does not bound-check the index (an out-of-range read is undefined behaviour in C++); the model requires the index to be in range.
- DebugDrawSystem.cpp: the drawing routines (DrawSoundNode, DrawWindNode, DrawDecals, DrawLightNode, the hanging-object check) are render calls and floating-point geometry. They are named in DrawFunction but not modelled. The colour table comes from the editor configuration and is a parameter.
- PackageBuilder.EditorUIPackageBuilder.ProcessImportedPackage: the loader's nested run is foreign code. It appears as the package node that run produced, and reference counting (SafeRetain/SafeRelease) is not modelled.
- PackageBuilder.EditorUIPackageBuilder.BeginControlWithPath: takes the path already split into names. The source's `Split(pathName, "/", controlNames, false, true)` (String utilities, not part of this model) cuts at '/' and drops empty pieces.
- PackageBuilder.EditorUIPackageBuilder.constructor: the C++ constructor (Tools/UIEditor_v2/Classes/UIControls/EditorUIPackageBuilder.cpp:23-26) initialises only `packageNode` and `currentObject`, leaving the `currentSection` pointer uninitialised; the model starts it at null. In C, a ProcessProperty (or a ProcessImportedPackage, which saves the pointer) before any Begin...Section reads an indeterminate value; the model instead sees null.
- BeginControlWithPrototype and BeginUnknownControl (EditorUIPackageBuilder.cpp:95-122, 145-149) depend on the loader and on ControlNode's prototype copying, which are not part of this model.
- ObjectFactory, the properties root and its section lookup are foreign: the sections a control node has are given when it is created.
- DebugDraw.DebugDrawSystem.AddEntity: visits the entity's components in their own order rather than type by type up to COMPONENT_COUNT; RegisterAllIsWithEntity shows the lists come out the same either way. The entity's `GetComponent(type, index)` lookup is the component list itself.
- DavaGen.Lower: lower-cases ASCII letters only; Python's `str.lower` also lower-cases other letters.
- dava_gen.py: main, search_program, argparse, and `os.path.realpath`/`normpath` are process and file-system calls. setup_framework_env is modelled from the normalised path on.
- The Asset Cache client (Sources/Tools/AssetCache/AssetCacheClient.h) is declarations only, with network plumbing behind them; it is not part of this model.

## Findings

| source | as written | input that shows it | evidently intended | confidence | as-written member | corrected member |
|---|---|---|---|---|---|---|
| Programs/ColladaConverter/Collada15/FCollada/LibXML/tree.c:204-236 | xmlBuildQName returns ncname only for a NULL prefix; an empty prefix builds ":ncname" | prefix "", ncname "a" gives ":a", which neither split function cuts | its comment (lines 196-198) promises ncname for an empty prefix too | high; not executed | XmlQName.BuildQNameEmptyPrefix | XmlQName.IntendedRoundTrip |
| Programs/ColladaConverter/Collada15/FCollada/LibXML/tree.c:2273-2279 | removing the head attribute moves `properties` on but leaves the new head's `prev` pointing at the freed attribute | attributes a, b with cur = a: afterwards b.prev == a and a is freed | the new head's `prev` cleared, as in the non-head branch, which repairs `prev` (2285-2286) | high; not executed | XmlTree.RemovePropAsWritten | XmlTree.RemoveProp |
| Programs/ColladaConverter/Collada15/FCollada/LibXML/tree.c:3608-3619 | xmlAddChild frees an attribute of the same name with xmlFreeProp while it is still linked into the element's attribute list (xmlFreeProp does not unlink) | element with attribute x, add a new attribute x: the freed old x stays in the list, followed by the new one | unlink the duplicate, then free it | high; not executed | XmlTree.AppendAttrAsWritten | XmlTree.AttachAttr |
| Programs/ColladaConverter/Collada15/FCollada/LibXML/tree.c:3209-3223 | xmlAddNextSibling (and xmlAddPrevSibling at 3299-3313) frees an attribute of the same name with xmlFreeProp while it is still linked, then links the new attribute beside cur | attributes x, y with cur = y, add a new x after y: the list becomes x, y, x with the first x freed | unlink the duplicate, then free it | high; not executed | XmlTree.InsertAttrAsWritten | XmlTree.InsertAttr |
