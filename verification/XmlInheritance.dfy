/**
 The `xml:` attributes of a rendered element whose parent is not rendered: the nearest
 ancestor-or-self decides, and none appears twice.
 */
module XmlInheritance {
  import opened Dom
  import opened Ordering
  import opened Render
  import opened Canonical
  import opened WellFormed
  import opened OrderFree

  /** The value of `xml:local` on the nearest of these elements that has it. */
  function NearestXml(chain: seq<Frame>, local: string): Option<string> {
    if chain == [] then None
    else
      var here := Get(XmlAttrs(chain[0].elem.attrs), local);
      if here.Some? then here else NearestXml(chain[1..], local)
  }

  /** The list holds that `xml:` attribute with that value. */
  ghost predicate Writes(attrs: seq<Attr>, local: string, value: string) {
    exists a :: a in attrs && a.uri == XML_NS && a.local == local && a.value == value
  }

  lemma SameWrites(a: seq<Attr>, b: seq<Attr>, local: string, value: string)
    requires forall x :: x in a <==> x in b
    ensures Writes(a, local, value) <==> Writes(b, local, value)
  {
  }

  lemma {:induction false} InheritedIsNearest(ancestors: seq<Frame>, local: string)
    ensures Get(InheritedXml(ancestors), local) == NearestXml(ancestors, local)
  {
    if ancestors != [] {
      InheritedIsNearest(ancestors[1..], local);
    }
  }

  lemma {:induction false} ExtraMember(names: seq<string>, inherited: NsMap, present: seq<Attr>, a: Attr)
    requires forall k :: k in names ==> k in inherited
    ensures a in ExtraAttrs(names, inherited, present) <==>
      a.local in names && !HasXmlAttr(present, a.local) && a == Attr(XML_NS, a.local, "xml:" + a.local, inherited[a.local])
  {
    if names != [] {
      ExtraMember(names[1..], inherited, present, a);
      assert forall k :: k in names <==> k == names[0] || k in names[1..];
    }
  }

  lemma {:induction false} ExtraDistinct(names: seq<string>, inherited: NsMap, present: seq<Attr>)
    requires forall k :: k in names ==> k in inherited
    requires forall i, j :: 0 <= i < j < |names| ==> names[i] != names[j]
    ensures Distinct(AttrLe, ExtraAttrs(names, inherited, present))
  {
    if names != [] {
      var rest := ExtraAttrs(names[1..], inherited, present);
      ExtraDistinct(names[1..], inherited, present);
      var x := Attr(XML_NS, names[0], "xml:" + names[0], inherited[names[0]]);
      ExtraApart(names, inherited, present, x);
      hide AttrLe, HasXmlAttr;
    }
  }

  lemma ExtraApart(names: seq<string>, inherited: NsMap, present: seq<Attr>, x: Attr)
    requires forall k :: k in names ==> k in inherited
    requires forall i, j :: 0 <= i < j < |names| ==> names[i] != names[j]
    requires names != [] && x.uri == XML_NS && x.local == names[0]
    ensures var rest := ExtraAttrs(names[1..], inherited, present);
      forall j :: 0 <= j < |rest| ==> !(AttrLe(x, rest[j]) && AttrLe(rest[j], x))
  {
    var rest := ExtraAttrs(names[1..], inherited, present);
    hide AttrLe, ExtraAttrs, HasXmlAttr;
    forall j | 0 <= j < |rest| ensures !(AttrLe(x, rest[j]) && AttrLe(rest[j], x)) {
      ExtraMember(names[1..], inherited, present, rest[j]);
      assert rest[j] in rest;
      var k :| 0 <= k < |names[1..]| && names[1..][k] == rest[j].local;
      assert names[k + 1] == rest[j].local;
      AttrTies(x, rest[j]);
    }
  }

  lemma SortedOwn(mode: Mode, attrs: seq<Attribute>)
    requires UniqueAttrs(attrs)
    ensures var own := Sort(AttrLe, OwnAttrs(mode, attrs));
      Distinct(AttrLe, own) && forall x :: x in own <==> x in OwnAttrs(mode, attrs)
  {
    var raw := OwnAttrs(mode, attrs);
    OwnDistinct(mode, attrs);
    AttrLeTotal();
    SortStrict(AttrLe, raw);
    SortMultiset(AttrLe, raw);
    SameMembers(Sort(AttrLe, raw), raw);
  }

  /** Own `xml:` attributes in the tag are those of the element. */
  lemma OwnXml(mode: Mode, attrs: seq<Attribute>, own: seq<Attr>, local: string, value: string)
    requires forall x :: x in own <==> x in OwnAttrs(mode, attrs)
    ensures Writes(own, local, value) <==> XmlValue(attrs, local, value)
  {
    if a :| a in own && a.uri == XML_NS && a.local == local && a.value == value {
      OwnMember(mode, attrs, a);
      var x :| x in attrs && ToAttr(mode, x) == a;
      var i :| 0 <= i < |attrs| && attrs[i] == x;
      assert XML_NS != "";
      assert XmlValue(attrs, local, value);
    }
    if XmlValue(attrs, local, value) {
      var i :| 0 <= i < |attrs| && attrs[i].name.uri == Some(XML_NS) && attrs[i].name.local == local && attrs[i].value == value;
      var a := ToAttr(mode, attrs[i]);
      OwnMember(mode, attrs, a);
      assert attrs[i] in attrs;
      assert a in own && a.uri == XML_NS && a.local == local && a.value == value;
    }
  }

  lemma HasOwnXml(attrs: seq<Attribute>, own: seq<Attr>, mode: Mode, local: string)
    requires UniqueAttrs(attrs) && forall x :: x in own <==> x in OwnAttrs(mode, attrs)
    ensures HasXmlAttr(own, local) <==> local in XmlAttrs(attrs)
  {
    if HasXmlAttr(own, local) {
      var i :| 0 <= i < |own| && own[i].uri == XML_NS && own[i].local == local;
      assert own[i] in own;
      OwnXml(mode, attrs, own, local, own[i].value);
      XmlAttrsEntry(attrs, local, own[i].value);
    }
    if local in XmlAttrs(attrs) {
      XmlAttrsEntry(attrs, local, XmlAttrs(attrs)[local]);
      OwnXml(mode, attrs, own, local, XmlAttrs(attrs)[local]);
      var a :| a in own && a.uri == XML_NS && a.local == local;
      var i :| 0 <= i < |own| && own[i] == a;
    }
  }

  /** The element's own attributes and the inherited ones, before they are sorted. */
  function Gathered(cfg: Config, chain: seq<Frame>): seq<Attr>
    requires chain != []
  {
    var own, inherited := Sort(AttrLe, OwnAttrs(cfg.mode, chain[0].elem.attrs)), InheritedXml(chain[1..]);
    own + ExtraAttrs(SortedKeys(inherited.Keys), inherited, own)
  }

  lemma GatheredIsNearest(cfg: Config, chain: seq<Frame>, local: string, value: string)
    requires chain != [] && UniqueAttrs(chain[0].elem.attrs)
    ensures Distinct(AttrLe, Gathered(cfg, chain))
    ensures Writes(Gathered(cfg, chain), local, value) <==> NearestXml(chain, local) == Some(value)
  {
    var attrs := chain[0].elem.attrs;
    var own := Sort(AttrLe, OwnAttrs(cfg.mode, attrs));
    var inherited := InheritedXml(chain[1..]);
    var names := SortedKeys(inherited.Keys);
    SortedOwn(cfg.mode, attrs);
    hide Sort, OwnAttrs, SortedKeys, ExtraAttrs, InheritedXml, XmlAttrs;
    WrittenDistinct(own, names, inherited);
    hide Writes, HasXmlAttr, Distinct, XmlValue;
    WrittenValues(cfg.mode, attrs, own, names, inherited, local, value);
    InheritedIsNearest(chain[1..], local);
    XmlAttrsEntry(attrs, local, value);
    HasOwnXml(attrs, own, cfg.mode, local);
  }

  lemma SortedWrites(all: seq<Attr>, local: string, value: string)
    requires Distinct(AttrLe, all)
    ensures Strict(AttrLe, Sort(AttrLe, all))
    ensures Writes(Sort(AttrLe, all), local, value) <==> Writes(all, local, value)
  {
    AttrLeTotal();
    SortStrict(AttrLe, all);
    SortMultiset(AttrLe, all);
    SameMembers(Sort(AttrLe, all), all);
    SameWrites(Sort(AttrLe, all), all, local, value);
  }

  /** The set of the subset does not leave attributes out, and the parent is not rendered. */
  predicate Inherits(cfg: Config, chain: seq<Frame>)
    requires chain != []
  {
    cfg.nodeSet.Some? && !cfg.nodeSet.value.excludeAttrs && ParentHidden(cfg, chain)
  }

  /** Inclusive 1.0: below a parent that is not rendered, an element is written with exactly the
      `xml:` attributes of its nearest ancestors-or-self, and no attribute is written twice. */
  lemma NearestXmlIsWritten(cfg: Config, chain: seq<Frame>, local: string, value: string)
    requires chain != [] && cfg.mode.Inclusive? && UniqueAttrs(chain[0].elem.attrs) && Inherits(cfg, chain)
    ensures Writes(InclusiveAttrs(cfg, chain), local, value) <==> NearestXml(chain, local) == Some(value)
    ensures Strict(AttrLe, InclusiveAttrs(cfg, chain))
  {
    GatheredIsNearest(cfg, chain, local, value);
    SortedWrites(Gathered(cfg, chain), local, value);
    hide Sort, OwnAttrs, SortedKeys, ExtraAttrs, InheritedXml, ParentHidden, Strict, Distinct, NearestXml, Writes;
    assert InclusiveAttrs(cfg, chain) == Sort(AttrLe, Gathered(cfg, chain));
  }

  // ---------------------------------------------------------------- xml:base

  predicate IsBase(a: Attr) {
    a.uri == XML_NS && a.local == "base"
  }

  /** Setting the base changes the value of `xml:base` and nothing else, and adds it where it is missing. */
  lemma SetBaseWrites(attrs: seq<Attr>, base: string, local: string, value: string)
    requires base != "" && Distinct(AttrLe, attrs)
    ensures Distinct(AttrLe, SetBase(attrs, base))
    ensures Writes(SetBase(attrs, base), local, value) <==> if local == "base" then value == base else Writes(attrs, local, value)
  {
    DistinctIsNoRepeat(attrs);
    DistinctIsNoRepeat(SetBase(attrs, base));
    SetBaseKeeps(attrs, base);
    hide SetBase, Distinct, NoRepeat, AttrLe;
    var k := BaseAt(attrs, base);
    var r := SetBase(attrs, base);
    assert r[k] in r;
    if a :| a in r && a.uri == XML_NS && a.local == local && a.value == value {
      SetBaseMember(attrs, base, a);
    }
    if a :| a in attrs && a.uri == XML_NS && a.local == local && a.value == value {
      SetBaseMember(attrs, base, a);
    }
  }

  lemma {:induction false} SetBaseMember(attrs: seq<Attr>, base: string, a: Attr)
    requires base != "" && Distinct(AttrLe, attrs)
    ensures !IsBase(a) ==> (a in SetBase(attrs, base) <==> a in attrs)
    ensures IsBase(a) && a in SetBase(attrs, base) ==> a.value == base
  {
    hide AttrLe;
    if attrs != [] {
      if IsBase(attrs[0]) {
        if IsBase(a) && a in attrs[1..] {
          var i :| 0 <= i < |attrs[1..]| && attrs[1..][i] == a;
          assert attrs[i + 1] == a;
          AttrTies(attrs[0], attrs[i + 1]);
        }
      } else {
        SetBaseMember(attrs[1..], base, a);
      }
    }
  }

  predicate SameName(a: Attr, b: Attr) {
    a.uri == b.uri && a.local == b.local
  }

  predicate NoRepeat(attrs: seq<Attr>) {
    forall i, j :: 0 <= i < j < |attrs| ==> !SameName(attrs[i], attrs[j])
  }

  lemma DistinctIsNoRepeat(attrs: seq<Attr>)
    ensures Distinct(AttrLe, attrs) <==> NoRepeat(attrs)
  {
    hide AttrLe;
    forall i, j | 0 <= i < j < |attrs| ensures AttrLe(attrs[i], attrs[j]) && AttrLe(attrs[j], attrs[i]) <==> SameName(attrs[i], attrs[j]) {
      AttrTies(attrs[i], attrs[j]);
    }
  }

  lemma SetBaseKeeps(attrs: seq<Attr>, base: string)
    requires NoRepeat(attrs)
    ensures NoRepeat(SetBase(attrs, base))
  {
    if base != "" {
      SetBaseNames(attrs, base);
      var r := SetBase(attrs, base);
      hide SetBase;
      forall i, j | 0 <= i < j < |r| ensures !SameName(r[i], r[j]) {
        if j < |attrs| {
          assert !SameName(attrs[i], attrs[j]);
        }
      }
    }
  }

  /** Names stay in place; what is added at the end is the base. */
  lemma {:induction false} SetBaseNames(attrs: seq<Attr>, base: string)
    requires base != ""
    ensures var r := SetBase(attrs, base);
      && |attrs| <= |r| <= |attrs| + 1
      && (forall i :: 0 <= i < |attrs| ==> r[i].uri == attrs[i].uri && r[i].local == attrs[i].local)
      && (|r| > |attrs| ==> IsBase(r[|attrs|]) && forall i :: 0 <= i < |attrs| ==> !IsBase(attrs[i]))
  {
    if attrs != [] && !IsBase(attrs[0]) {
      var rest, r := SetBase(attrs[1..], base), SetBase(attrs, base);
      SetBaseNames(attrs[1..], base);
      assert r == [attrs[0]] + rest;
      hide SetBase;
      forall i | 0 <= i < |attrs| ensures r[i].uri == attrs[i].uri && r[i].local == attrs[i].local {
        if i > 0 {
          assert r[i] == rest[i - 1] && attrs[i] == attrs[1..][i - 1];
        }
      }
      if |r| > |attrs| {
        forall i | 0 <= i < |attrs| ensures !IsBase(attrs[i]) {
          if i > 0 {
            assert attrs[i] == attrs[1..][i - 1];
          }
        }
      }
    }
  }

  lemma {:induction false} BaseAt(attrs: seq<Attr>, base: string) returns (k: nat)
    requires base != ""
    ensures k < |SetBase(attrs, base)|
    ensures IsBase(SetBase(attrs, base)[k]) && SetBase(attrs, base)[k].value == base
  {
    if attrs == [] || IsBase(attrs[0]) {
      k := 0;
    } else {
      var i := BaseAt(attrs[1..], base);
      k := i + 1;
    }
  }

  /** Inclusive 1.1: the same, except that `xml:base` holds the bases from the root down to the element
      resolved against each other, if there is any that is not empty. */
  lemma ResolvedBaseIsWritten(cfg: Config, chain: seq<Frame>, local: string, value: string)
    requires chain != [] && cfg.mode.Inclusive11? && UniqueAttrs(chain[0].elem.attrs) && Inherits(cfg, chain)
    ensures var base := AbsoluteBase(cfg.mode.resolve, chain);
      Writes(InclusiveAttrs(cfg, chain), local, value) <==>
        if local == "base" && base != "" then value == base else NearestXml(chain, local) == Some(value)
    ensures Strict(AttrLe, InclusiveAttrs(cfg, chain))
  {
    var all, base := Gathered(cfg, chain), AbsoluteBase(cfg.mode.resolve, chain);
    GatheredIsNearest(cfg, chain, local, value);
    assert InclusiveAttrs(cfg, chain) == Sort(AttrLe, SetBase(all, base)) by {
      hide Sort, OwnAttrs, SortedKeys, ExtraAttrs, InheritedXml, ParentHidden, SetBase, AbsoluteBase;
    }
    hide Sort, InclusiveAttrs, Gathered, AbsoluteBase, NearestXml, Strict, Distinct, Inherits;
    if base != "" {
      SetBaseWrites(all, base, local, value);
    }
    SortedWrites(SetBase(all, base), local, value);
  }

  /** A base that resolves to itself cuts off what is further up. */
  lemma {:induction false} BaseCutsOff(resolve: (string, string) -> string, chain: seq<Frame>, k: nat, base: string)
    requires k < |chain| && BaseOf(chain[k].elem.attrs) == Some(base)
    requires forall x :: resolve(x, base) == base
    ensures AbsoluteBase(resolve, chain) == AbsoluteBase(resolve, chain[..k + 1])
  {
    var cut := chain[..k + 1];
    assert cut[0] == chain[0];
    if k > 0 {
      assert chain[1..][k - 1] == chain[k] && cut[1..] == chain[1..][..k];
      BaseCutsOff(resolve, chain[1..], k - 1, base);
    } else {
      assert cut[1..] == [];
    }
  }

  lemma WrittenDistinct(own: seq<Attr>, names: seq<string>, inherited: NsMap)
    requires Distinct(AttrLe, own) && names == SortedKeys(inherited.Keys)
    ensures forall k :: k in names ==> k in inherited
    ensures Distinct(AttrLe, own + ExtraAttrs(names, inherited, own))
  {
    SortedKeysStrict(inherited.Keys);
    forall i, j | 0 <= i < j < |names| ensures names[i] != names[j] {
      StrCmpTotal(names[i], names[j]);
    }
    var extra := ExtraAttrs(names, inherited, own);
    ExtraDistinct(names, inherited, own);
    forall i, j | 0 <= i < |own| && 0 <= j < |extra| ensures !(AttrLe(own[i], extra[j]) && AttrLe(extra[j], own[i])) {
      assert extra[j] in extra;
      ExtraMember(names, inherited, own, extra[j]);
      AttrTies(own[i], extra[j]);
    }
  }

  lemma WrittenValues(mode: Mode, attrs: seq<Attribute>, own: seq<Attr>, names: seq<string>, inherited: NsMap, local: string, value: string)
    requires UniqueAttrs(attrs) && (forall x :: x in own <==> x in OwnAttrs(mode, attrs))
    requires forall k :: k in names <==> k in inherited
    ensures Writes(own + ExtraAttrs(names, inherited, own), local, value) <==>
      XmlValue(attrs, local, value) || (!HasXmlAttr(own, local) && Get(inherited, local) == Some(value))
  {
    var extra := ExtraAttrs(names, inherited, own);
    OwnXml(mode, attrs, own, local, value);
    if a :| a in own + extra && a.uri == XML_NS && a.local == local && a.value == value {
      ExtraMember(names, inherited, own, a);
    }
    if !HasXmlAttr(own, local) && Get(inherited, local) == Some(value) {
      var a := Attr(XML_NS, local, "xml:" + local, value);
      ExtraMember(names, inherited, own, a);
      assert a in own + extra;
    }
    if XmlValue(attrs, local, value) {
      var a :| a in own && a.uri == XML_NS && a.local == local && a.value == value;
      assert a in own + extra;
    }
  }
}
