# Verified model of bergshamra

bergshamra signs and verifies XML.  This project models its core in Dafny and proves what
that core is for.

- **Canonicalization.**  `Dom` is the document: a tree of any size whose nodes carry the index of
  the parser's arena.  `Canonical` says which tokens a document or node set is written as, in inclusive
  1.0, inclusive 1.1 and exclusive mode; `Canonicalizer` is the walk that appends to an output buffer,
  proved to write exactly that.  `Lexer`, `TagReader` and `TreeReader` are readers of the
  output that know nothing of the writer; the theorems relate what they find to the source:
  namespaces are preserved and nothing superfluous is written (`NsPreservation`, `ExcPreservation`,
  `TextMeaning`), text determines tokens (`Lexer`), a second run changes nothing (`RoundTrip`),
  source order does not matter (`OrderFree`), hidden parts and node ids do not matter (`Views`),
  declarations and attributes ascend (`TagOrder`), the content of the source is kept (`InfoSet`), and node
  sets that select namespace nodes are written exactly so (`FilteredPreservation`).
  `Removal`, `TopLines`, `Enveloped` and `WholeReference` compare hiding a subtree with deleting it.
- **Selections.**  `NodeSets`, `XPathText`/`XPathParser`/`XPathPrint`/`XPathChains`, `XPathEval`,
  `Filter2` and `DropSignature` compute selections by set algebra, downward recursion, upward
  walks, a parsed boolean language and a pattern shortcut, and prove where these agree.  `FilterMeaning`,
  `PathMeaning` and `TransformMeaning` say what they select in terms of the tree.
- **Signing and verifying.**  `Dsig`, `SignRun` and `VerifyRun` are the two runs; `Edits`, `FilterEdits`, `Pipeline`, `Sites`,
  `Agreement`, `RunKeeps`, `SignVerify`, `CommonRun` and `SealedRun` prove that what is signed verifies, `Coverage`
  that what verifies cannot have been changed.
- **Numbers in bytes.**  `Serials`, `Kdf` and `Codecs`.

`dafny verify dfyconfig.toml` checks everything.

## What stands for code that is not shown

Parse results are trees.  `Suite` collects the foreign functions of the two runs: reading an attribute, the ID
attributes of an element, octets behind external URIs, reading a Transform element, digests
and base64.  `Checks` holds the reading of a CanonicalizationMethod, the test of the SignatureMethod
(HMAC output length), key resolution and the signature check.  Resolution of `xml:base` values,
the test for a floating-point numeral, splitting a path into steps, XPath predicates in brackets, the
DSA signature constructor and the hash of the key derivation are function parameters too.

## Where the code departs from a simple statement

- A prefix undeclared with an empty URI (possible only in Namespaces in XML 1.1) is still bound in the
  output: `InclusivePreservesNamespaces` and `ExclusivePreservesNamespaces` give the exact
  condition, `UndeclarationIsLost` and `ListedUndeclarationIsLost` failing inputs.
- Subtraction of node sets is not pointwise on namespace nodes unless both sides carry a map:
  `SubtractPointwise` gives the exact guard.
- Taking a Signature out of the node set is not deleting it if namespace nodes of it stay visible, or if
  it is a top-level element to which a comment or instruction owes a line break: `EnvelopedIsDeletion` gives the
  exact condition, `NamespaceNodeStays` and `DocumentElementLeavesBreak` failing inputs.
- The XPath parser splits at `and` before `or`: a chain of parenthesised operands means what XPath 1.0 says
  if and only if it does not mix the two operators (`ChainsMeanAlike`).
- The test for the enveloped pattern takes any binding of the prefix on the way up, the parser the nearest
  one: `ShortcutIsFilter` gives the condition under which both mean the same, `ShadowedPrefix` a
  failing input; and the shortcut removes one signature where the filter drops all (`RemovalIsFilter`).  On
  `not(ancestor-or-self::Signature)` the test cuts a slice whose bounds cross.
- Serial numbers with the top bit set are printed as negative on the signing side and as unsigned
  in key lookup.

## Model

| member | source | states |
|---|---|---|
| `Canonicalizer.C14nContext.Run` | crates/bergshamra-c14n/src/inclusive.rs:32-47 | the output buffer of the in-place walk ends as the canonical form `C14n` of the document, in inclusive 1.0, inclusive 1.1 and exclusive mode and for every node set |
| `Canonicalizer.C14nContext.ProcessNode` | crates/bergshamra-c14n/src/inclusive.rs:64-147 | what one node appends: text, CDATA, comments, instructions with their line breaks beside the document element, elements |
| `Canonicalizer.C14nContext.ProcessElement` | crates/bergshamra-c14n/src/inclusive.rs:149-399 | what an element appends, rendered or not |
| `Canonicalizer.C14nContext.WriteElement` | crates/bergshamra-c14n/src/inclusive.rs:291-337 | start tag, content in the context passed down, end tag |
| `Canonicalizer.C14nContext.WriteFloating` | crates/bergshamra-c14n/src/inclusive.rs:339-387 | the visible namespace nodes of an element that is not rendered are written without a tag |
| `Canonicalizer.HasPrecedingElement` | crates/bergshamra-c14n/src/inclusive.rs:445-454 | an element stands before the node among its siblings |
| `Canonicalizer.HasFollowingElement` | crates/bergshamra-c14n/src/inclusive.rs:457-466 | an element stands after the node among its siblings |
| `Canonicalizer.CollectChanged` | crates/bergshamra-c14n/src/inclusive.rs:178-203 | the vector of declarations lists exactly the bindings that differ from the inherited ones, each prefix once |
| `Canonicalizer.CollectExclusive` | crates/bergshamra-c14n/src/exclusive.rs:197-225 | the same for exclusive mode, whatever order the hash set of utilized prefixes is visited in |
| `Canonicalizer.CollectUtilized` | crates/bergshamra-c14n/src/exclusive.rs:150-177 | the prefixes of the element, of its attributes and of the PrefixList |
| `Canonicalizer.CollectDecls` | crates/bergshamra-c14n/src/exclusive.rs:179-288 | sorted declarations of a tag and the context its children are compared with |
| `Canonicalizer.CollectAttrs` | crates/bergshamra-c14n/src/inclusive.rs:221-286 | sorted attributes of a tag with inherited `xml:` attributes and the `xml:base` fix-up of 1.1 |
| `Canonicalizer.CollectInheritedXml` | crates/bergshamra-c14n/src/inclusive.rs:406-441 | the loop over ancestors yields the inherited attributes the element does not have itself |
| `Canonicalizer.ComputeAbsoluteBase` | crates/bergshamra-c14n/src/inclusive.rs:535-574 | the bases from the root down, each resolved against the one above |
| `Namespaces.CollectInscope` | crates/bergshamra-c14n/src/inclusive.rs:472-506 | walking up and merging root-down gives the bindings in scope |
| `Namespaces.MergesAgree` | crates/bergshamra-c14n/src/exclusive.rs:393-418 | the exclusive merge is the inclusive one without the remembered empty default |
| `Namespaces.ResolveNsPrefix` | crates/bergshamra-dsig/src/verify.rs:2417-2430 | the upward walk returns the nearest declaration of a prefix |
| `Namespaces.LookupsAgree` | crates/bergshamra-dsig/src/verify.rs:2066-2094 | at every element root-down merging and walking up find the same non-empty binding for every prefix |
| `NsPreservation.InclusiveTag` | crates/bergshamra-c14n/src/inclusive.rs:149-337 | one inclusive tag: its reader ends in step with the context passed down, has the source scope exactly if nothing above went out of scope, and is told nothing it knows |
| `NsPreservation.InclusivePreservesNamespaces` | crates/bergshamra-c14n/src/inclusive.rs:149-399 | for every tree and node set without namespace filter the bindings a reader collects are the scopes of the source, element by element, if and only if no prefix goes out of scope between rendered elements; and no declaration is redundant |
| `NsPreservation.InclusivePreservesXml10` | crates/bergshamra-c14n/src/inclusive.rs:472-506 | documents that never undeclare a prefix, as in Namespaces in XML 1.0, meet that condition, so every scope is preserved |
| `NsPreservation.UndeclarationIsLost` | crates/bergshamra-c14n/src/inclusive.rs:490-503 | an input where that condition fails: a prefix undeclared on a child is still bound for the reader |
| `ExcPreservation.ExclusiveTag` | crates/bergshamra-c14n/src/exclusive.rs:141-347 | the context kept in exclusive mode is exactly what a reader of the emitted ancestor tags knows |
| `ExcPreservation.ExclusivePreservesNamespaces` | crates/bergshamra-c14n/src/exclusive.rs:197-288 | at every rendered element each utilized or listed prefix resolves as in the source if and only if none was bound by a rendered ancestor and then undeclared; nothing else is declared, and nothing twice |
| `ExcPreservation.ExclusivePreservesXml10` | crates/bergshamra-c14n/src/exclusive.rs:59-347 | documents without undeclarations meet that condition |
| `ExcPreservation.ListedUndeclarationIsLost` | crates/bergshamra-c14n/src/exclusive.rs:197-225 | an input where it fails: a listed prefix undeclared on a child is still bound for the reader |
| `ExcPreservation.NeedIsAsked` | crates/bergshamra-c14n/src/exclusive.rs:150-177 | the prefixes a rendered element asks for are its own, those of its attributes outside the `xml` namespace, and those of the PrefixList with `#default` for the empty one, and no others |
| `FilteredPreservation.FilteredTag` | crates/bergshamra-c14n/src/inclusive.rs:165-219 | one tag under a namespace-node map, in any mode: exactly what it states, what a reader inside knows, and the context passed down |
| `FilteredPreservation.SelectedNamespaces` | crates/bergshamra-c14n/src/inclusive.rs:149-337 | for every node set with a namespace-node map and every mode: each rendered tag states exactly the selected bindings that were not the last shown above it and ends a default namespace that is not selected; inside it every selected prefix it speaks of means to a reader what it means in the source |
| `FilteredPreservation.SelectedBeside` | crates/bergshamra-c14n/src/inclusive.rs:339-387 | each element that is not rendered states beside the tags exactly the bindings selected at it that were not the last shown above, in exclusive mode those of the PrefixList only |
| `TextMeaning.InclusiveText` | crates/bergshamra-c14n/src/inclusive.rs:23-47 | the same on the characters, for whole documents and node sets without namespace filter: an independent reader of inclusive canonical text finds the scopes of the source, and no superfluous declaration |
| `TextMeaning.ExclusiveText` | crates/bergshamra-c14n/src/exclusive.rs:23-43 | the same for exclusive canonical text |
| `Escape.EscapeText` | crates/bergshamra-c14n/src/escape.rs:11-23 | the loop computes the escaped text |
| `Escape.EscapeAttr` | crates/bergshamra-c14n/src/escape.rs:26-40 | the loop computes the escaped attribute value |
| `Escape.UnescapeText` | crates/bergshamra-c14n/src/escape.rs:11-23 | resolving references undoes text escaping, in front of any rest that is no reference |
| `Escape.UnescapeAttr` | crates/bergshamra-c14n/src/escape.rs:26-40 | resolving references undoes attribute escaping |
| `Escape.EscTextSafe` | crates/bergshamra-c14n/src/escape.rs:11-23 | escaped text holds no markup character |
| `Escape.EscAttrSafe` | crates/bergshamra-c14n/src/escape.rs:26-40 | escaped attribute values hold no quote and no markup character |
| `Escape.EscPiSafe` | crates/bergshamra-c14n/src/escape.rs:43-45 | escaped instruction data holds no carriage return |
| `Escape.TextIsReplaced` | crates/bergshamra-c14n/src/escape.rs:11-23 | text escaping is the replacement of `&`, `<`, `>` and carriage return, one after the other |
| `Escape.AttrIsReplaced` | crates/bergshamra-c14n/src/escape.rs:26-40 | attribute escaping is the replacement of `&`, `<`, the quote, tab, line feed and carriage return |
| `Escape.PiIsReplaced` | crates/bergshamra-c14n/src/escape.rs:43-45 | in instruction data only carriage returns are replaced |
| `Escape.TextUntouched` | crates/bergshamra-c14n/src/escape.rs:11-23 | text stays as it is if and only if none of the four characters occurs in it |
| `Escape.AttrUntouched` | crates/bergshamra-c14n/src/escape.rs:26-40 | an attribute value stays as it is if and only if none of the six characters occurs in it |
| `Lexer.LexMarkupOf` | crates/bergshamra-c14n/src/render.rs:18-28 | the characters of a tag determine its name, its declarations and its attributes |
| `Lexer.LexAll` | crates/bergshamra-c14n/src/render.rs:64-70 | serialization is unambiguous: the reader recovers every sequence of tokens, neighbouring text joined |
| `Render.DeclCmpIsPrefixOrder` | crates/bergshamra-c14n/src/render.rs:32-41 | the special case for the default namespace agrees with the order of prefixes |
| `Render.AttrCmpIsLexicographic` | crates/bergshamra-c14n/src/render.rs:74-88 | attributes are compared by namespace URI, then local name, each in the order of `Ordering.StrCmpIsPrecedes` |
| `Render.SortedDecls` | crates/bergshamra-c14n/src/render.rs:31-48 | sorting any vector of a set of declarations gives one list |
| `Ordering.StrCmpIsPrecedes` | crates/bergshamra-c14n/src/render.rs:32-41 | one string comes before another if and only if it is a proper prefix of it, or they share a prefix after which the next character is smaller |
| `TagOrder.TagsAreOrdered` | crates/bergshamra-c14n/src/render.rs:31-94 | in the whole output, for every mode and node set: the prefixes of every start tag strictly ascend in that order, and its attributes, each of them one of the element or an `xml:` attribute, strictly ascend by namespace URI and then local name |
| `WellFormed.CanonIsReadable` | crates/bergshamra-c14n/src/inclusive.rs:64-147 | the canonical text of a well-formed document, or of any node set in it unless namespace nodes of hidden elements can be written, is cut back into its tokens |
| `Idempotence.TagAgain` | crates/bergshamra-c14n/src/exclusive.rs:141-347 | canonicalizing what was read from a tag writes the same tag and keeps both runs aligned |
| `RoundTrip.C14nIdempotent` | crates/bergshamra-c14n/src/inclusive.rs:23-399 | reading canonical text as a document and canonicalizing it again gives the same text, for every well-formed document and all modes |
| `InfoSet.CanonKeepsContent` | crates/bergshamra-c14n/src/inclusive.rs:64-399 | nothing is lost: the canonical text of a well-formed document, in every mode, is read as a document with the same elements, resolved names, attributes, character data, instructions and, where they are written, comments |
| `InfoSet.SameTextSameContent` | crates/bergshamra-c14n/src/inclusive.rs:23-47 | so documents with the same canonical text say the same |
| `Views.SameViewSameCanon` | crates/bergshamra-c14n/src/inclusive.rs:57-62 | canonical text is a function of the view, for every node set and mode: nodes with nothing visible in them, and node ids, do not matter |
| `FullSet.CoveringSetIsNoSet` | crates/bergshamra-c14n/src/inclusive.rs:245-286 | a node set that holds every node that would be written gives the output of no node set |
| `FullSet.AllIsNoSet` | crates/bergshamra-xml/src/nodeset.rs:84-115 | so do the set of all nodes and, without comments, the set of all but comments; in 1.1 despite the `xml:base` fix-up |
| `OrderFree.OrderIndependent` | crates/bergshamra-c14n/src/render.rs:31-94 | permuting attributes and declarations inside elements does not change the output, in any mode, for any node set |
| `ContextFree.SubtreeCanon` | crates/bergshamra-xml/src/nodeset.rs:119-141 | the canonical form of a referenced element is the walk of its subtree alone |
| `ContextFree.ExclusiveIsContextFree` | crates/bergshamra-c14n/src/exclusive.rs:197-250 | an element keeps its exclusive canonical form in another document if the prefixes used in it keep their bindings |
| `XmlInheritance.NearestXmlIsWritten` | crates/bergshamra-c14n/src/inclusive.rs:406-441 | below a parent that is not rendered, inclusive 1.0 writes exactly the `xml:` attributes of the nearest ancestor-or-self, and no attribute twice |
| `XmlInheritance.ResolvedBaseIsWritten` | crates/bergshamra-c14n/src/inclusive.rs:244-286 | inclusive 1.1 writes the same, except that `xml:base` holds the bases from the root down resolved against each other, unless there is none that is not empty |
| `XmlInheritance.BaseCutsOff` | crates/bergshamra-c14n/src/inclusive.rs:535-574 | a base that every other base resolves to itself cuts off the bases further up |
| `NodeSets.MergeIntersection` | crates/bergshamra-xml/src/nodeset.rs:260-279 | the visible entries of both maps |
| `NodeSets.MergeUnion` | crates/bergshamra-xml/src/nodeset.rs:282-298 | the visible entries of either map |
| `NodeSets.MergeSubtract` | crates/bergshamra-xml/src/nodeset.rs:301-328 | the entries of the first map that the second does not show |
| `NodeSets.IntersectionPointwise` | crates/bergshamra-xml/src/nodeset.rs:175-194 | intersection and union are pointwise on nodes and on namespace nodes |
| `NodeSets.SubtractPointwise` | crates/bergshamra-xml/src/nodeset.rs:197-205 | subtraction is pointwise on nodes; on namespace nodes exactly under a guard on the two maps |
| `NodeSets.SubtractHidesTooMuch` | crates/bergshamra-xml/src/nodeset.rs:301-328 | without a map on the left, subtracting one namespace node hides others |
| `NodeSets.Selection.CollectSubtree` | crates/bergshamra-xml/src/nodeset.rs:331-345 | the walk inserts the subtree, with or without comments |
| `NodeSets.Selection.RemoveSubtree` | crates/bergshamra-transforms/src/enveloped.rs:64-69 | the walk removes the node and everything below it |
| `Enveloped.Execute` | crates/bergshamra-transforms/src/enveloped.rs:40-61 | the input set, or all nodes, without the Signature subtree |
| `Removal.GapForest` | crates/bergshamra-c14n/src/inclusive.rs:149-399 | hiding a subtree leaves at least the text that deleting it leaves, and the same text exactly if no namespace node of the subtree would still be written |
| `TopLines.LeadingLines` | crates/bergshamra-c14n/src/inclusive.rs:83-142 | an element before them adds one line break for every leading comment or instruction, and nothing else |
| `TopLines.DocumentLayout` | crates/bergshamra-c14n/src/inclusive.rs:83-142 | the text of a document is that of its document element, before it every written comment or instruction with a line break after it, behind it every one with a line break before it |
| `Enveloped.EnvelopedIsDeletion` | crates/bergshamra-transforms/src/enveloped.rs:40-69 | for every subtree, mode and node set: canonicalizing without the subtree gives the text of the document from which it was deleted, if and only if none of its namespace nodes is still written and no comment or instruction beside it owes it a line break |
| `Enveloped.EnvelopedOnWholeDocument` | crates/bergshamra-transforms/src/enveloped.rs:45-58 | on a whole document the result is the canonical form of the document without its signature, if and only if no line break is missed |
| `WholeReference.EnvelopedOnReference` | crates/bergshamra-dsig/src/verify.rs:593-640 | on what the empty URI selects, in every mode, the transform leaves the text without comments of the document from which the signature was deleted, under the same exact condition |
| `Enveloped.SoleElement` | crates/bergshamra-c14n/src/inclusive.rs:445-466 | if the signature is the only element, that means that no comment or instruction beside it is written |
| `Enveloped.EnvelopedIgnoresSignature` | crates/bergshamra-transforms/src/enveloped.rs:40-69 | the output is independent of anything inside the signature |
| `Enveloped.DocumentElementLeavesBreak` | crates/bergshamra-c14n/src/inclusive.rs:111-142 | an input where it fails: the break of an instruction before a Signature that is the document element remains |
| `Enveloped.NamespaceNodeStays` | crates/bergshamra-c14n/src/inclusive.rs:339-387 | an input where it fails: a declaration of the removed Signature is still written |
| `XPathText.SplitTopLevel` | crates/bergshamra-dsig/src/verify.rs:1735-1758 | the first operator outside parentheses with something on both sides |
| `XPathText.StripNot` | crates/bergshamra-dsig/src/verify.rs:1762-1796 | the inside of `not(...)` if its parentheses match |
| `XPathParser.ParseParen` | crates/bergshamra-dsig/src/verify.rs:1634-1637 | parentheses around a balanced text do not change what it parses to |
| `XPathParser.ParseAnd` | crates/bergshamra-dsig/src/verify.rs:1614-1619 | `(a) and right` is the conjunction of what both sides parse to |
| `XPathParser.ParseOr` | crates/bergshamra-dsig/src/verify.rs:1621-1626 | `(a) or (b)` is the disjunction |
| `XPathParser.ParseNot` | crates/bergshamra-dsig/src/verify.rs:1628-1632 | `not(a)` is the negation |
| `XPathParser.AndSplitsFirst` | crates/bergshamra-dsig/src/verify.rs:1614-1626 | `(a) and (b) or (c)` is grouped as a conjunction |
| `XPathChains.ParseChain` | crates/bergshamra-dsig/src/verify.rs:1614-1637 | a chain `(a1) op (a2) ... (an)` of any length is read as the conjunction of its maximal runs of `or` |
| `XPathChains.ChainsMeanAlike` | crates/bergshamra-dsig/src/verify.rs:1614-1626 | that reading means what section 3.4 of XPath 1.0 says, the disjunction of the maximal runs of `and`, for all operands and nodes, if and only if the chain does not mix the operators |
| `XPathPrint.ParsePrint` | crates/bergshamra-dsig/src/verify.rs:1594-1731 | every expression tree is read back from its fully parenthesised text |
| `XPathPrint.WordIsRefused` | crates/bergshamra-dsig/src/verify.rs:1594-1731 | a single word without parenthesis, colon or `@` that is no numeral is refused and never becomes a filter |
| `XPathEval.ApplyFilter` | crates/bergshamra-dsig/src/verify.rs:2097-2171 | the method leaves the filtered set, with namespace-node visibility where the expression refers to namespace nodes; what that set is says `FilterMeaning` |
| `XPathEval.EvaluateNs` | crates/bergshamra-dsig/src/verify.rs:2146-2164 | the visibility map over all elements and bindings in scope |
| `XPathEval.WalkUp` | crates/bergshamra-dsig/src/verify.rs:1850-1865 | the walk up finds an element of that name |
| `XPathEval.CountUp` | crates/bergshamra-dsig/src/verify.rs:1938-1947 | the depth counted on the way up |
| `XPathEval.NamespaceNodesFollow` | crates/bergshamra-dsig/src/verify.rs:2041-2062 | for expressions over ancestry alone namespace nodes fare as their element, so leaving the map out loses nothing |
| `FilterMeaning.FilterMeans` | crates/bergshamra-dsig/src/verify.rs:1847-1949 | a filter keeps exactly the input nodes of which the expression says something true about the tree: `parent::n` that an element of that name has the node among its children, `ancestor-or-self::n` that the node lies in the subtree of such an element, depth as the number of subtrees around the node and the document |
| `FilterMeaning.FilterWithin` | crates/bergshamra-dsig/src/verify.rs:2097-2140 | and it keeps nothing but nodes of the document |
| `FilterMeaning.NsFilterMeans` | crates/bergshamra-dsig/src/verify.rs:1952-2027 | a namespace node is shown exactly if the expression tells no namespace nodes apart, or its prefix is in scope and the expression says something true of it |
| `Spots.UpIsDown` | crates/bergshamra-dsig/src/verify.rs:1510-1519 | walking up from a node and collecting subtrees from above find the same nodes |
| `Filter2.EvaluatePathSteps` | crates/bergshamra-dsig/src/verify.rs:2537-2618 | level by level evaluation of an absolute path selects exactly the elements whose ancestors-or-self match the steps one by one |
| `Filter2.CollectPath` | crates/bergshamra-dsig/src/verify.rs:2396-2414 | an absolute path selects the subtrees of the elements it reaches |
| `Filter2.SplitUnion` | crates/bergshamra-dsig/src/verify.rs:2434-2455 | the first `|` outside brackets and parentheses |
| `Filter2.CollectMatches` | crates/bergshamra-dsig/src/verify.rs:2358-2390 | `//name` collects the subtrees of all matching elements |
| `Filter2.ApplyFilter2` | crates/bergshamra-dsig/src/verify.rs:2266-2324 | the run of filters, or its first error |
| `Filter2.RunFails` | crates/bergshamra-dsig/src/verify.rs:2283-2311 | the run fails exactly if an expression cannot be evaluated or a Filter is unknown |
| `Filter2.Filter2Selects` | crates/bergshamra-dsig/src/verify.rs:2277-2315 | membership in the output is input membership and the left fold of the set operations from all nodes; namespace nodes and attributes are as in the input |
| `Filter2.SelectIsPlain` | crates/bergshamra-dsig/src/verify.rs:2336-2414 | every expression, absolute paths included, selects a set without namespace map |
| `Filter2.FilterRunSelects` | crates/bergshamra-dsig/src/verify.rs:2266-2324 | so the above holds of every run of filters, each expression read with the prefixes in scope at its own element |
| `PathMeaning.NameSelects` | crates/bergshamra-dsig/src/verify.rs:2358-2390 | `//name` selects the nodes in the subtrees of all elements with that local name, in any namespace |
| `PathMeaning.PrefixedSelects` | crates/bergshamra-dsig/src/verify.rs:2359-2390 | `//p:name` those in the namespace of the nearest declaration of the prefix, and it fails if there is none |
| `PathMeaning.UnionSelects` | crates/bergshamra-dsig/src/verify.rs:2352-2356 | two expressions joined by a bar select what either of them selects, with any blanks around the bar, and fails if and only if one side does |
| `PathMeaning.PathSelects` | crates/bergshamra-dsig/src/verify.rs:2396-2414 | `/a/b/c` selects the nodes in the subtrees of the elements at the end of such a path of children from the top |
| `PathMeaning.RootSelects` | crates/bergshamra-dsig/src/verify.rs:2346-2349 | `/` selects every node |
| `FilterEdits.PathIdsUp` | crates/bergshamra-dsig/src/verify.rs:2537-2618 | a node lies in what an absolute path selects exactly if the way up from it meets an element whose ancestors-or-self match the steps |
| `DropSignature.FilterIsSubtraction` | crates/bergshamra-dsig/src/verify.rs:1850-1865 | of any input node set, `not(ancestor-or-self::ds:Signature)` keeps the nodes outside the subtrees of all signatures, and drops the namespace map and the attribute flag |
| `DropSignature.SubtractionRuns` | crates/bergshamra-dsig/src/verify.rs:2358-2395 | of any input node set, Filter 2.0 `subtract //ds:Signature` keeps the same nodes, with the namespace map and attribute flag of the input |
| `DropSignature.RemovalIsFilter` | crates/bergshamra-dsig/src/verify.rs:1303-1316 | removing the processed Signature keeps the nodes the filter keeps, of any input, if and only if no input node lies in a signature outside the processed one; removal keeps the namespace map and attribute flag that the filter drops |
| `DropSignature.WholeInput` | crates/bergshamra-dsig/src/verify.rs:1303-1316 | for a whole document that condition says that every Signature lies in the processed one |
| `DropSignature.IsEnvelopedXPath` | crates/bergshamra-dsig/src/verify.rs:2177-2203 | the pattern test, and where cutting out the prefix is out of range |
| `DropSignature.NoRoomForPrefix` | crates/bergshamra-dsig/src/verify.rs:2181-2186 | that happens for exactly one text, the unprefixed `not(ancestor-or-self::Signature)` |
| `DropSignature.ShortcutIsFilter` | crates/bergshamra-dsig/src/verify.rs:2188-2203 | when the shortcut is taken, parsing gives the filter it stands for exactly if the nearest binding of the prefix is the XML Signature namespace |
| `DropSignature.ShadowedPrefix` | crates/bergshamra-dsig/src/verify.rs:2188-2203 | an input where it is not: a nearer element binds the prefix to another namespace |
| `DropSignature.ShortcutReplacesFilter` | crates/bergshamra-dsig/src/verify.rs:1299-1316 | taking the shortcut on the data of a reference: the same nodes as running the filter under exactly that condition, and then the same canonical text in every mode, unless the input speaks of namespace nodes or attributes |
| `Dsig.ExtractTextContent` | crates/bergshamra-transforms/src/base64_transform.rs:11-27 | the character data of the selected text nodes in document order |
| `Dsig.FindElement` | crates/bergshamra-dsig/src/verify.rs:2944-2955 | the first element of a name in document order |
| `Dsig.FirstIsFirst` | crates/bergshamra-dsig/src/verify.rs:2944-2955 | the element found is the one a search of the tree meets first, a node before what is in it |
| `Dsig.NamedInOrder` | crates/bergshamra-dsig/src/verify.rs:2975-2991 | the children of a name are all of them, each once, in their order |
| `Dsig.IsAncestorOrSelf` | crates/bergshamra-xml/src/xpath.rs:45-54 | the id is met on the way up |
| `Dsig.AncestorIsSubtree` | crates/bergshamra-xml/src/xpath.rs:45-54 | the way up from a node meets another exactly if the node lies in its subtree |
| `Dsig.BuildIdMap` | crates/bergshamra-dsig/src/verify.rs:3038-3058 | the ID map, or an error for a value that occurs twice |
| `Dsig.IdMapIsExact` | crates/bergshamra-dsig/src/verify.rs:3038-3058 | it exists exactly if all values differ, and maps each value to the one element carrying it |
| `VerifyRun.ValidatePosition` | crates/bergshamra-dsig/src/verify.rs:3069-3093 | the method computes the strict-mode test |
| `VerifyRun.PlacedIsInPlace` | crates/bergshamra-dsig/src/verify.rs:3069-3093 | the test accepts a target if and only if it is the first element of the document, contains the Signature, or has the same parent |
| `VerifyRun.BlanksDoNotCount` | crates/bergshamra-dsig/src/verify.rs:244-249 | blanks anywhere in a stored base64 text do not count, and no other character is lost |
| `VerifyRun.CheckReferences` | crates/bergshamra-dsig/src/verify.rs:194-213 | references in order up to the first mismatch |
| `VerifyRun.Verify` | crates/bergshamra-dsig/src/verify.rs:77-457 | the run computes the verdict function, with the early Invalid for a SignatureMethod that is not admitted |
| `VerifyRun.ReferenceIsSound` | crates/bergshamra-dsig/src/verify.rs:464-579 | what is reported of a matching reference: `digest_verified` is false exactly for `cid:`, other digests equal the stored one, and a `#id` target is the only element with that ID |
| `VerifyRun.ValidIsSafe` | crates/bergshamra-dsig/src/verify.rs:194-232 | every Valid result carries one sound report per Reference in order, the accepted signature is over the canonical SignedInfo, and in strict mode each target is the document element, contains the Signature, or has the same parent |
| `Coverage.ElementPinned` | crates/bergshamra-dsig/src/verify.rs:464-579 | the stored digest of a `#id` or xpointer reference of a Valid document is, by its digest method, the digest of the canonical text of the one element that carries the ID, with the mode and comments of its Canonicalize transform, and without the signature if that is taken out first |
| `Coverage.DocumentPinned` | crates/bergshamra-dsig/src/verify.rs:464-579 | that of an enveloped reference to the whole document is the digest of the canonical text of the document without its signature |
| `TransformMeaning.DigestedNodes` | crates/bergshamra-dsig/src/verify.rs:539-569 | for any sequence of enveloped-signature, boolean XPath, Filter 2.0 and XPointer transforms: the stored digest is that of the canonical text of a node set to which a node belongs if and only if the URI names it and each transform keeps it |
| `Coverage.SignedInfoPinned` | crates/bergshamra-dsig/src/verify.rs:173-254 | of a Valid document the decoded text of its SignatureValue was accepted over the canonical text of its SignedInfo, as its CanonicalizationMethod says and with its SignatureMethod |
| `Coverage.ElementUnchanged` | crates/bergshamra-dsig/src/verify.rs:464-579 | tampering is detected: if no two texts have the same digest, and two Valid documents hold references that say the same, then the elements they name have the same canonical text |
| `Coverage.DocumentUnchanged` | crates/bergshamra-dsig/src/verify.rs:464-579 | and so have the two documents without their signatures, which say the same if they are well formed |
| `References.XPointerReadBack` | crates/bergshamra-xml/src/xpath.rs:32-42 | the ID of an xpointer is read back, with either kind of quotes |
| `References.ResolvedNodes` | crates/bergshamra-dsig/src/verify.rs:593-640 | an empty URI selects all nodes but comments; a fragment selects the subtree of the element with that ID, with comments exactly for an xpointer |
| `SignRun.ReplaceFirstEmpty` | crates/bergshamra-dsig/src/sign.rs:419-459 | the first empty element of a name gets the content, losing attributes and declarations |
| `SignRun.PassReference` | crates/bergshamra-dsig/src/sign.rs:66-197 | one pass of the reference loop on the current document |
| `SignRun.SignReferences` | crates/bergshamra-dsig/src/sign.rs:60-197 | the reference loop |
| `SignRun.Sign` | crates/bergshamra-dsig/src/sign.rs:21-344 | the signing run: methods read from the template, the reference loop, the signed octets, SignatureValue, population of KeyInfo |
| `SignRun.FillVacates` | crates/bergshamra-dsig/src/sign.rs:419-459 | filling the first empty element leaves exactly the other ones empty |
| `RunKeeps.FirstStays` | crates/bergshamra-dsig/src/sign.rs:419-459 | filling in an element of another name leaves the first empty element of a name what it is, unless that is around it |
| `RunKeeps.FewerIds` | crates/bergshamra-dsig/src/verify.rs:3038-3058 | where no ID value occurs more often than before, the ID map still exists |
| `RunKeeps.StepsBag` | crates/bergshamra-dsig/src/sign.rs:60-197 | no pass of the reference loop adds an ID value |
| `Edits.EditedCanon` | crates/bergshamra-c14n/src/inclusive.rs:64-399 | the frame property: two documents that differ only inside elements whose nodes and namespace nodes the node sets avoid have the same canonical text, for every mode and node set |
| `FilterEdits.Filter2Agrees` | crates/bergshamra-dsig/src/verify.rs:2266-2324 | XPath Filter 2.0 on both: the same error, or the same nodes outside the edited elements |
| `Pipeline.FilterAgrees` | crates/bergshamra-dsig/src/verify.rs:2097-2171 | boolean XPath on both: the same nodes and the same namespace nodes outside the edited elements |
| `Pipeline.RunAgrees` | crates/bergshamra-dsig/src/verify.rs:539-557 | any sequence of enveloped-signature, boolean XPath, Filter 2.0, XPointer, canonicalization and base64 transforms gives the same octets on both, or the same error |
| `Sites.HolesArePlaced` | crates/bergshamra-dsig/src/sign.rs:70-77 | the DigestValues of the references, SignatureValue and KeyInfo lie apart from everything that says how to digest |
| `Sites.MethodsRead` | crates/bergshamra-dsig/src/sign.rs:37-58 | the canonicalization and signature methods read from the template are those of the finished document |
| `Sites.DigestAgrees` | crates/bergshamra-dsig/src/verify.rs:464-579 | a reference that avoids the open elements has the same digest on both documents |
| `Agreement.StepFills` | crates/bergshamra-dsig/src/sign.rs:66-197 | each pass fills the DigestValue of its own reference and touches nothing else |
| `SignVerify.RunExists` | crates/bergshamra-dsig/src/sign.rs:66-197 | every successful loop is a run of documents |
| `SignVerify.ValueStays` | crates/bergshamra-dsig/src/sign.rs:66-197 | the first empty SignatureValue is the same in every pass |
| `SignVerify.SignedDigestsMatch` | crates/bergshamra-dsig/src/sign.rs:60-341 | sign then verify: on the finished document every digest that verification recomputes equals the stored one |
| `SignVerify.SignedOctetsAgree` | crates/bergshamra-dsig/src/sign.rs:199-214 | filling SignatureValue and KeyInfo leaves SignedInfo and its octets as they were, for every canonicalization |
| `SignVerify.SignatureValueFinishes` | crates/bergshamra-dsig/src/sign.rs:320-321 | filling SignatureValue changes nothing else |
| `SignVerify.SigningFinishes` | crates/bergshamra-dsig/src/sign.rs:21-344 | for a template whose first empty SignatureValue is that of the signature, what the signing run returns is a finished run of documents in which IDs can be looked up |
| `SignVerify.SignedDocumentVerifies` | crates/bergshamra-dsig/src/verify.rs:77-457 | the finished document is Valid if and only if the method is admitted and the signature accepted over the octets that were signed, with the methods of the template, and in strict mode all targets are well placed |
| `CommonRun.EnvelopedAvoids` | crates/bergshamra-dsig/src/verify.rs:593-640 | a reference to the document or to any element outside the open ones, by empty URI, ID or xpointer, that first takes out the signature selects nothing in it |
| `CommonRun.LocalKept` | crates/bergshamra-dsig/src/verify.rs:593-640 | what a same-document URI names is named in the edited document too |
| `CommonRun.ApartAvoids` | crates/bergshamra-dsig/src/verify.rs:600-640 | a reference to an element that neither contains nor lies in an open element selects nothing of those |
| `CommonRun.CommonDigestsMatch` | crates/bergshamra-dsig/src/sign.rs:60-341 | for templates whose references are of these two kinds, followed by any transforms that show no more, the digests match without any assumption on what is selected |
| `CommonRun.EnvelopedDigestsMatch` | crates/bergshamra-dsig/src/sign.rs:60-341 | in particular if all references are enveloped |
| `CommonRun.SignThenVerify` | crates/bergshamra-dsig/src/sign.rs:21-344 | from the template to the verdict, with conditions on the template and on population only: what the signing run makes of such a template, KeyInfo populated, verifies as Valid if and only if the signature is accepted over the signed octets and, in strict mode, the targets are well placed |
| `SealedRun.SigningSeals` | crates/bergshamra-dsig/src/sign.rs:199-321 | the SignatureValue of the document that signing returns decodes to what the signer returned for its SignatureMethod and the canonical text of its SignedInfo |
| `SealedRun.SealedIsValid` | crates/bergshamra-dsig/src/verify.rs:77-457 | a verifier that accepts what this signer makes finds that document Valid if and only if its SignatureMethod is admitted and, in strict mode, each target is the document element, contains the Signature, or has the same parent |
| `Serials.BigDivmod` | crates/bergshamra-dsig/src/sign.rs:838-851 | quotient and remainder of the big-endian value, no `u16` overflow, quotient without leading zeros |
| `Serials.FormatBytes` | crates/bergshamra-dsig/src/sign.rs:822-835 | repeated division prints the decimal numeral of the value |
| `Serials.Negate` | crates/bergshamra-dsig/src/sign.rs:806-817 | two's complement negation of the value |
| `Serials.FormatSerial` | crates/bergshamra-dsig/src/sign.rs:772-804 | the decimal numeral of the two's complement value |
| `Serials.Times256` | crates/bergshamra-keys/src/keyinfo.rs:180-190 | one multiplication pass over the digits, no `u16` overflow |
| `Serials.AddByte` | crates/bergshamra-keys/src/keyinfo.rs:191-201 | one addition pass over the digits, no `u16` overflow |
| `Serials.FormatSerialDecimal` | crates/bergshamra-keys/src/keyinfo.rs:169-222 | digit accumulation prints the decimal numeral of the unsigned value |
| `Serials.PrintersAgree` | crates/bergshamra-keys/src/keyinfo.rs:169-222 | the two printers agree if and only if the top bit is clear |
| `Serials.SameTextSameSerial` | crates/bergshamra-keys/src/keyinfo.rs:143-163 | comparing serial numbers as text compares the numbers |
| `Kdf.ExtendToMultiple` | crates/bergshamra-pkcs12/src/kdf.rs:112-124 | the data repeated periodically to the multiple of v |
| `Kdf.RoundUpIsLeast` | crates/bergshamra-pkcs12/src/kdf.rs:116-116 | that multiple is the least sufficient one |
| `Kdf.AddOnePlusB` | crates/bergshamra-pkcs12/src/kdf.rs:127-134 | the block becomes (I_j + B + 1) mod 256^v in place, the rest of the buffer stays |
| `Kdf.UpdateBlocks` | crates/bergshamra-pkcs12/src/kdf.rs:98-102 | all blocks of I are updated |
| `Kdf.DeriveKey` | crates/bergshamra-pkcs12/src/kdf.rs:52-108 | the key has exactly the length asked for and is made of the rounds that `Kdf.DerivedRounds` describes |
| `Kdf.DerivedRounds` | crates/bergshamra-pkcs12/src/kdf.rs:52-108 | block by block the key is the hash, applied c times, of a text: the first begins with v times the id, then come the salt and behind it the password, each repeated up to a multiple of v; in every later one each block of v octets is the value before plus B plus one modulo 256^v |
| `Kdf.DerivedPrefix` | crates/bergshamra-pkcs12/src/kdf.rs:76-107 | a shorter request is a prefix of a longer one |
| `Codecs.NormalizeRawEcdsa` | crates/bergshamra-crypto/src/sign.rs:597-624 | both halves keep their value; the conditions for failure |
| `Codecs.NormalizationFails` | crates/bergshamra-crypto/src/sign.rs:608-619 | on even length it fails exactly if a half does not fit the field |
| `Codecs.DsaToXmldsig` | crates/bergshamra-crypto/src/sign.rs:868-881 | r and s in as many bytes as q has |
| `Codecs.DsaDecodes` | crates/bergshamra-crypto/src/sign.rs:884-897 | decoding an encoded pair makes a signature of r and s modulo 256^q, or fails with the constructor |
| `Codecs.DsaRoundTrip` | crates/bergshamra-crypto/src/sign.rs:884-897 | decoding returns r and s if and only if both are below 256^q and the constructor takes them |
| `Codecs.ElementReadBack` | crates/bergshamra-keys/src/loader.rs:920-933 | the DER reader undoes a DER encoder for contents under 2^24 bytes and leaves the rest untouched |
| `Codecs.ElementIsSlice` | crates/bergshamra-keys/src/loader.rs:936-949 | whatever is read is a slice of the data after a header of two to five bytes |
| `Codecs.IntegerValue` | crates/bergshamra-keys/src/loader.rs:952-962 | dropping the sign byte keeps the value |

## Left out

- The XML parser and writer: documents are trees, and filling in an element replaces a subtree.
- Node ids after re-parsing: in the signing run a node keeps its id from pass to pass; canonical output does not depend on ids (`SameViewSameCanon`).
- The two accessors for `xml:id`: signing reads it by namespace and verifying by name; the model gives both runs one function for the ID values of an element.
- Pipeline.RunAgrees: the XSLT and OPC relationship transforms, which read the whole document whatever the node set is, are not among its transforms; transforms of octets, where the code may parse them anew, are a parameter.
- NsPreservation.InclusivePreservesNamespaces: node sets with a namespace-node map, of which `FilteredPreservation` speaks instead; the same holds of its exclusive counterpart and of both theorems in `TextMeaning`.
- InfoSet.CanonKeepsContent: node sets, whose text need not be a document.
- Coverage.ElementPinned: lists of the enveloped-signature transform and one canonicalization, either of which may be missing; other lists are covered by `TransformMeaning.DigestedNodes`, except those that go on with octets.
- Coverage.DocumentPinned: signatures whose removal leaves a line break behind, the exact condition of `Enveloped.EnvelopedOnWholeDocument`.
- SealedRun.SigningSeals: templates in which the first empty SignatureValue is not the first of the signature, and population that changes SignatureValue.
- The digits of HMACOutputLength, post-quantum context strings, key resolution and certificate checks: they are behind `Checks`.
- The resolution of URI references for `xml:base`: a parameter, the code being a simplification of RFC 3986.
- Splitting a path expression into steps, bracketed predicates, and the compound `here()` and `id()` filters: text heuristics; evaluation of the steps is modelled.
- How KeyInfo is populated: a parameter of the signing run, which may change anything inside KeyInfo but repeat no ID.
- find_leaf_cert and pad_prehash: certificate selection and hash padding belong to the cryptographic back end, which is behind `Checks`.
- URL maps, files, the command line, hardware modules, encryption.
