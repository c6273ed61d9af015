// agent/updates/manifest/manifest.go: the manifest and the bytes its signature covers.
module Manifest {
  import opened Prelude
  import Decimal
  import Lex

  datatype ReleaseNotes = ReleaseNotes(
    releasedAt: string,
    changes: seq<string>,
    breakingChanges: seq<string>,
    securityFixes: seq<string>,
    requiredQRXVersion: string,
    requiredAdapterVersion: string,
    minSuiteVersion: string)

  datatype ComponentUpdate = ComponentUpdate(
    version: string, url: string, sha256: string, signature: string, notes: Option<ReleaseNotes>)

  datatype Manifest = Manifest(
    manifestVersion: int,
    channel: string,
    suiteVersion: string,
    releasedAt: string,
    components: map<string, ComponentUpdate>,
    signature: string)

  /** Manifest.Validate; `instant` reads an RFC 3339 timestamp. */
  predicate IsValid(m: Manifest, instant: string -> Option<int>) {
    && m.manifestVersion > 0
    && m.channel != "" && m.suiteVersion != "" && m.releasedAt != ""
    && instant(m.releasedAt).Some?
    && m.signature != ""
    && m.components != map[]
    && forall name | name in m.components ::
         var c := m.components[name];
         c.version != "" && c.url != "" && c.sha256 != "" && c.signature != ""
  }

  /* ---------- Encoding ---------- */

  function ListFields(items: seq<string>): seq<string> {
    [Decimal.OfInt(|items|)] + items
  }

  function NoteFields(n: ReleaseNotes): seq<string> {
    [n.releasedAt] + ListFields(n.changes) + ListFields(n.breakingChanges) + ListFields(n.securityFixes)
    + [n.requiredQRXVersion, n.requiredAdapterVersion, n.minSuiteVersion]
  }

  function ComponentFields(name: string, c: ComponentUpdate): seq<string> {
    [name, c.version, c.url, c.sha256]
    + match c.notes case None => ["0"] case Some(n) => ["1"] + NoteFields(n)
  }

  function ComponentsFields(components: map<string, ComponentUpdate>, names: seq<string>): seq<string>
    requires forall name | name in names :: name in components
  {
    if names == [] then []
    else ComponentFields(names[0], components[names[0]]) + ComponentsFields(components, names[1..])
  }

  function HeaderFields(m: Manifest): seq<string> {
    [Decimal.OfInt(m.manifestVersion), m.channel, m.suiteVersion, m.releasedAt]
  }

  /** Every field, NUL-terminated. */
  function Encode(fields: seq<string>): string {
    if fields == [] then "" else fields[0] + "\0" + Encode(fields[1..])
  }

  ghost function SortedNames(m: Manifest): (names: seq<string>)
    ensures forall name | name in names :: name in m.components
  {
    var names := Lex.SortedOf(m.components.Keys);
    assert forall name | name in names :: name in Lex.Elements(names);
    names
  }

  ghost function Payload(m: Manifest): string {
    Encode(HeaderFields(m) + ComponentsFields(m.components, SortedNames(m)))
  }

  lemma {:induction false} EncodeAppends(a: seq<string>, b: seq<string>)
    ensures Encode(a + b) == Encode(a) + Encode(b)
  {
    if a == [] {
      assert a + b == b;
    } else {
      EncodeAppends(a[1..], b);
      assert (a + b)[1..] == a[1..] + b;
    }
  }

  /* ---------- Decoding ---------- */

  function FieldEnd(p: string): (n: nat)
    ensures n <= |p| && '\0' !in p[..n] && (n < |p| ==> p[n] == '\0')
  {
    if p == "" || p[0] == '\0' then 0
    else
      var n := 1 + FieldEnd(p[1..]);
      assert p[..n] == [p[0]] + p[1..][..n - 1];
      n
  }

  function Split(p: string): seq<string> {
    if p == "" then []
    else
      var n := FieldEnd(p);
      if n == |p| then [p] else [p[..n]] + Split(p[n + 1..])
  }

  function TakeList(fs: seq<string>): Option<(seq<string>, seq<string>)> {
    if fs == [] then None
    else match Decimal.Read(fs[0])
      case Some(n) => if 0 <= n < |fs| then Some((fs[1..n + 1], fs[n + 1..])) else None
      case None => None
  }

  function DecodeNotes(fs: seq<string>): (r: Option<(ReleaseNotes, seq<string>)>)
    ensures r.Some? ==> |r.value.1| < |fs|
  {
    if fs == [] then None
    else match TakeList(fs[1..])
      case None => None
      case Some((changes, f1)) =>
        match TakeList(f1)
        case None => None
        case Some((breaking, f2)) =>
          match TakeList(f2)
          case None => None
          case Some((fixes, f3)) =>
            if |f3| < 3 then None
            else Some((ReleaseNotes(fs[0], changes, breaking, fixes, f3[0], f3[1], f3[2]), f3[3..]))
  }

  function DecodeComponent(fs: seq<string>): (r: Option<(ComponentUpdate, seq<string>)>)
    ensures r.Some? ==> |r.value.1| < |fs|
  {
    if |fs| < 5 then None
    else if fs[4] == "0" then Some((ComponentUpdate(fs[1], fs[2], fs[3], "", None), fs[5..]))
    else if fs[4] == "1" then
      match DecodeNotes(fs[5..])
      case None => None
      case Some((n, rest)) => Some((ComponentUpdate(fs[1], fs[2], fs[3], "", Some(n)), rest))
    else None
  }

  function DecodeComponents(fs: seq<string>): Option<map<string, ComponentUpdate>>
    decreases |fs|
  {
    if fs == [] then Some(map[])
    else match DecodeComponent(fs)
      case None => None
      case Some((c, rest)) =>
        match DecodeComponents(rest)
        case None => None
        case Some(others) => Some(others[fs[0] := c])
  }

  /** An independent reader of payloads; signatures are not part of them. */
  function Decode(payload: string): Option<Manifest> {
    var fs := Split(payload);
    if |fs| < 4 then None
    else match (Decimal.Read(fs[0]), DecodeComponents(fs[4..]))
      case (Some(v), Some(cs)) => Some(Manifest(v, fs[1], fs[2], fs[3], cs, ""))
      case _ => None
  }

  /* ---------- Injectivity ---------- */

  predicate NulFree(fields: seq<string>) {
    forall i | 0 <= i < |fields| :: '\0' !in fields[i]
  }

  predicate NulFreeComponent(name: string, c: ComponentUpdate) {
    NulFree([name, c.version, c.url, c.sha256])
    && match c.notes
       case None => true
       case Some(n) =>
         NulFree([n.releasedAt, n.requiredQRXVersion, n.requiredAdapterVersion, n.minSuiteVersion])
         && NulFree(n.changes) && NulFree(n.breakingChanges) && NulFree(n.securityFixes)
  }

  predicate NulFreeManifest(m: Manifest) {
    NulFree([m.channel, m.suiteVersion, m.releasedAt])
    && forall name | name in m.components :: NulFreeComponent(name, m.components[name])
  }

  function UnsignedComponent(c: ComponentUpdate): ComponentUpdate {
    c.(signature := "")
  }

  /** What the signature commits to: everything but the signatures themselves. */
  function Unsigned(m: Manifest): Manifest {
    m.(signature := "", components := map name | name in m.components :: UnsignedComponent(m.components[name]))
  }

  lemma {:induction false} SplitInvertsEncode(fields: seq<string>)
    requires NulFree(fields)
    ensures Split(Encode(fields)) == fields
  {
    if fields != [] {
      var f, rest := fields[0], Encode(fields[1..]);
      var p := f + "\0" + rest;
      FieldEndOf(f, rest);
      assert p[..|f|] == f && p[|f| + 1..] == rest;
      SplitInvertsEncode(fields[1..]);
    }
  }

  lemma {:induction false} FieldEndOf(f: string, rest: string)
    requires '\0' !in f
    ensures FieldEnd(f + "\0" + rest) == |f|
  {
    if f == "" {
      assert f + "\0" + rest == "\0" + rest;
    } else {
      FieldEndOf(f[1..], rest);
      assert (f + "\0" + rest)[1..] == f[1..] + "\0" + rest;
    }
  }

  lemma TakeListInverts(items: seq<string>, rest: seq<string>)
    ensures TakeList(ListFields(items) + rest) == Some((items, rest))
  {
    Decimal.IntRoundTrip(|items|);
    var fs := ListFields(items) + rest;
    assert fs[1..|items| + 1] == items && fs[|items| + 1..] == rest;
  }

  lemma DecodeNotesInverts(n: ReleaseNotes, rest: seq<string>)
    ensures DecodeNotes(NoteFields(n) + rest) == Some((n, rest))
  {
    var last := [n.requiredQRXVersion, n.requiredAdapterVersion, n.minSuiteVersion] + rest;
    var f2 := ListFields(n.securityFixes) + last;
    var f1 := ListFields(n.breakingChanges) + f2;
    var f0 := ListFields(n.changes) + f1;
    assert (NoteFields(n) + rest)[1..] == f0;
    TakeListInverts(n.changes, f1);
    TakeListInverts(n.breakingChanges, f2);
    TakeListInverts(n.securityFixes, last);
    assert last[3..] == rest;
  }

  lemma DecodePlainInverts(name: string, c: ComponentUpdate, rest: seq<string>)
    requires c.notes.None?
    ensures DecodeComponent(ComponentFields(name, c) + rest) == Some((UnsignedComponent(c), rest))
  {
    hide DecodeNotes, NoteFields;
    var head := [name, c.version, c.url, c.sha256, "0"];
    assert ComponentFields(name, c) == head;
    HeadDecodes(head, rest);
  }

  lemma DecodeNotedInverts(name: string, c: ComponentUpdate, n: ReleaseNotes, rest: seq<string>)
    requires c.notes == Some(n)
    ensures DecodeComponent(ComponentFields(name, c) + rest) == Some((UnsignedComponent(c), rest))
  {
    hide DecodeNotes, NoteFields;
    var head, more := [name, c.version, c.url, c.sha256, "1"], NoteFields(n) + rest;
    assert ComponentFields(name, c) + rest == head + more;
    HeadDecodes(head, more);
    DecodeNotesInverts(n, rest);
  }

  lemma HeadDecodes(head: seq<string>, more: seq<string>)
    requires |head| == 5
    ensures |head + more| >= 5 && (head + more)[5..] == more
    ensures forall i | 0 <= i < 5 :: (head + more)[i] == head[i]
  {
  }

  lemma DecodeComponentInverts(name: string, c: ComponentUpdate, rest: seq<string>)
    ensures DecodeComponent(ComponentFields(name, c) + rest) == Some((UnsignedComponent(c), rest))
  {
    hide DecodeComponent, ComponentFields;
    match c.notes {
      case None => DecodePlainInverts(name, c, rest);
      case Some(n) => DecodeNotedInverts(name, c, n, rest);
    }
  }

  lemma DecodeFirst(name: string, c: ComponentUpdate, rest: seq<string>)
    requires DecodeComponents(rest).Some?
    ensures DecodeComponents(ComponentFields(name, c) + rest)
            == Some(DecodeComponents(rest).value[name := UnsignedComponent(c)])
  {
    DecodeComponentInverts(name, c, rest);
    assert (ComponentFields(name, c) + rest)[0] == name;
  }

  function Stripped(components: map<string, ComponentUpdate>, names: seq<string>): map<string, ComponentUpdate>
    requires forall name | name in names :: name in components
  {
    map name | name in names :: UnsignedComponent(components[name])
  }

  lemma StrippedFirst(components: map<string, ComponentUpdate>, names: seq<string>)
    requires names != [] && forall name | name in names :: name in components
    ensures Stripped(components, names)
            == Stripped(components, names[1..])[names[0] := UnsignedComponent(components[names[0]])]
  {
  }

  lemma {:induction false} DecodeComponentsInverts(components: map<string, ComponentUpdate>, names: seq<string>)
    requires forall name | name in names :: name in components
    ensures DecodeComponents(ComponentsFields(components, names)) == Some(Stripped(components, names))
  {
    if names != [] {
      DecodeComponentsInverts(components, names[1..]);
      DecodeFirst(names[0], components[names[0]], ComponentsFields(components, names[1..]));
      StrippedFirst(components, names);
    }
  }

  lemma {:induction false} ComponentsFieldsNulFree(components: map<string, ComponentUpdate>, names: seq<string>)
    requires forall name | name in names :: name in components
    requires forall name | name in names :: NulFreeComponent(name, components[name])
    ensures NulFree(ComponentsFields(components, names))
  {
    if names != [] {
      ComponentFieldsNulFree(names[0], components[names[0]]);
      ComponentsFieldsNulFree(components, names[1..]);
    }
  }

  lemma NulFreeAppends(a: seq<string>, b: seq<string>)
    requires NulFree(a) && NulFree(b)
    ensures NulFree(a + b)
  {
  }

  lemma ListFieldsNulFree(items: seq<string>)
    requires NulFree(items)
    ensures NulFree(ListFields(items))
  {
    Decimal.IntRoundTrip(|items|);
    NulFreeAppends([Decimal.OfInt(|items|)], items);
  }

  lemma NoteFieldsNulFree(n: ReleaseNotes)
    requires NulFree([n.releasedAt, n.requiredQRXVersion, n.requiredAdapterVersion, n.minSuiteVersion])
    requires NulFree(n.changes) && NulFree(n.breakingChanges) && NulFree(n.securityFixes)
    ensures NulFree(NoteFields(n))
  {
    var last := [n.requiredQRXVersion, n.requiredAdapterVersion, n.minSuiteVersion];
    var plain := [n.releasedAt, n.requiredQRXVersion, n.requiredAdapterVersion, n.minSuiteVersion];
    assert '\0' !in plain[0] && '\0' !in plain[1] && '\0' !in plain[2] && '\0' !in plain[3];
    assert NulFree([n.releasedAt]) && NulFree(last);
    hide NulFree, ListFields;
    ListFieldsNulFree(n.changes);
    ListFieldsNulFree(n.breakingChanges);
    ListFieldsNulFree(n.securityFixes);
    NulFreeAppends([n.releasedAt], ListFields(n.changes));
    NulFreeAppends([n.releasedAt] + ListFields(n.changes), ListFields(n.breakingChanges));
    NulFreeAppends([n.releasedAt] + ListFields(n.changes) + ListFields(n.breakingChanges), ListFields(n.securityFixes));
    NulFreeAppends(
      [n.releasedAt] + ListFields(n.changes) + ListFields(n.breakingChanges) + ListFields(n.securityFixes), last);
  }

  lemma ComponentFieldsNulFree(name: string, c: ComponentUpdate)
    requires NulFreeComponent(name, c)
    ensures NulFree(ComponentFields(name, c))
  {
    var head := [name, c.version, c.url, c.sha256];
    match c.notes {
      case None =>
        NulFreeAppends(head, ["0"]);
      case Some(n) =>
        NoteFieldsNulFree(n);
        NulFreeAppends(["1"], NoteFields(n));
        NulFreeAppends(head, ["1"] + NoteFields(n));
    }
  }

  lemma FieldsNulFree(m: Manifest)
    requires NulFreeManifest(m)
    ensures NulFree(HeaderFields(m) + ComponentsFields(m.components, SortedNames(m)))
  {
    Decimal.IntRoundTrip(m.manifestVersion);
    var first, plain := [Decimal.OfInt(m.manifestVersion)], [m.channel, m.suiteVersion, m.releasedAt];
    assert HeaderFields(m) == first + plain;
    NulFreeAppends(first, plain);
    ComponentsFieldsNulFree(m.components, SortedNames(m));
    NulFreeAppends(HeaderFields(m), ComponentsFields(m.components, SortedNames(m)));
  }

  lemma DecodeAllComponents(m: Manifest)
    ensures DecodeComponents(ComponentsFields(m.components, SortedNames(m))) == Some(Unsigned(m).components)
  {
    var names := SortedNames(m);
    DecodeComponentsInverts(m.components, names);
    forall name ensures name in names <==> name in m.components {
      Lex.InElements(name, names);
    }
    assert Stripped(m.components, names) == Unsigned(m).components;
  }

  /** The payload of a NUL-free manifest decodes back to everything but its signatures. */
  lemma DecodeInvertsPayload(m: Manifest)
    requires NulFreeManifest(m)
    ensures Decode(Payload(m)) == Some(Unsigned(m))
  {
    var cs := ComponentsFields(m.components, SortedNames(m));
    var fs := HeaderFields(m) + cs;
    FieldsNulFree(m);
    SplitInvertsEncode(fs);
    DecodeAllComponents(m);
    Decimal.IntRoundTrip(m.manifestVersion);
    HeaderSplits(m, cs);
  }

  lemma HeaderSplits(m: Manifest, cs: seq<string>)
    ensures var fs := HeaderFields(m) + cs;
            |fs| >= 4 && fs[0] == Decimal.OfInt(m.manifestVersion) && fs[1] == m.channel
            && fs[2] == m.suiteVersion && fs[3] == m.releasedAt && fs[4..] == cs
  {
  }

  /** Equal payloads mean equal manifests, signatures aside. */
  lemma PayloadIsInjective(a: Manifest, b: Manifest)
    requires NulFreeManifest(a) && NulFreeManifest(b)
    ensures Payload(a) == Payload(b) <==> Unsigned(a) == Unsigned(b)
  {
    hide NulFreeManifest, Payload, Unsigned;
    DecodeInvertsPayload(a);
    DecodeInvertsPayload(b);
    if Unsigned(a) == Unsigned(b) { SamePayload(a, b); }
  }

  /** The payload does not look at the signatures. */
  lemma SamePayload(a: Manifest, b: Manifest)
    requires Unsigned(a) == Unsigned(b)
    ensures Payload(a) == Payload(b)
  {
    assert a.components.Keys == Unsigned(a).components.Keys == b.components.Keys;
    SameFields(a, b, SortedNames(a));
  }

  lemma {:induction false} SameFields(a: Manifest, b: Manifest, names: seq<string>)
    requires Unsigned(a).components == Unsigned(b).components
    requires forall name | name in names :: name in a.components && name in b.components
    ensures ComponentsFields(a.components, names) == ComponentsFields(b.components, names)
  {
    if names != [] {
      assert Unsigned(a).components[names[0]] == Unsigned(b).components[names[0]];
      SameFields(a, b, names[1..]);
    }
  }

  /** With a NUL inside a string two different manifests can share a payload. */
  lemma NulBreaksInjectivity(m: Manifest)
    ensures var a := m.(channel := "x\0y", suiteVersion := "z");
            var b := m.(channel := "x", suiteVersion := "y\0z");
            Payload(a) == Payload(b) && Unsigned(a) != Unsigned(b)
  {
    var a := m.(channel := "x\0y", suiteVersion := "z");
    var b := m.(channel := "x", suiteVersion := "y\0z");
    HeaderEncoding(a);
    HeaderEncoding(b);
    assert "x\0y" + "\0" + "z" == "x" + "\0" + "y\0z";
    EncodeAppends(HeaderFields(a), ComponentsFields(m.components, SortedNames(m)));
    EncodeAppends(HeaderFields(b), ComponentsFields(m.components, SortedNames(m)));
  }

  lemma HeaderEncoding(m: Manifest)
    ensures Encode(HeaderFields(m)) ==
            Decimal.OfInt(m.manifestVersion) + "\0" + (m.channel + "\0" + m.suiteVersion + ("\0" + m.releasedAt + "\0"))
  {
    var v, c, s, r := Decimal.OfInt(m.manifestVersion), m.channel, m.suiteVersion, m.releasedAt;
    assert [v, c, s, r][1..] == [c, s, r] && [c, s, r][1..] == [s, r] && [s, r][1..] == [r] && [r][1..] == [];
    assert Encode([r]) == r + "\0";
    assert Encode([s, r]) == s + "\0" + Encode([r]);
    assert Encode([c, s, r]) == c + "\0" + Encode([s, r]);
    assert c + "\0" + (s + "\0" + (r + "\0")) == c + "\0" + s + ("\0" + r + "\0");
  }

  lemma ListEncoding(items: seq<string>)
    ensures Encode(ListFields(items)) == Decimal.OfInt(|items|) + "\0" + Encode(items)
  {
    assert ListFields(items)[1..] == items;
  }

  /** The bytes of one component: four fields, and then either "0" or "1" and the release notes. */
  lemma ComponentEncoding(name: string, c: ComponentUpdate)
    ensures var head := name + "\0" + (c.version + "\0" + (c.url + "\0" + (c.sha256 + "\0")));
            Encode(ComponentFields(name, c))
            == match c.notes
               case None => head + ("0" + "\0")
               case Some(n) => head + ("1" + "\0" + Encode(NoteFields(n)))
  {
    var h := [name, c.version, c.url, c.sha256];
    FourEncoded(name, c.version, c.url, c.sha256);
    match c.notes {
      case None =>
        EncodeAppends(h, ["0"]);
        assert ["0"][1..] == [];
      case Some(n) =>
        EncodeAppends(h, ["1"] + NoteFields(n));
        assert (["1"] + NoteFields(n))[1..] == NoteFields(n);
    }
  }

  /** The bytes of release notes: their date, the three counted lists, the three requirements. */
  lemma NoteEncoding(n: ReleaseNotes)
    ensures Encode(NoteFields(n))
            == n.releasedAt + "\0" + (Encode(ListFields(n.changes)) + (Encode(ListFields(n.breakingChanges))
               + (Encode(ListFields(n.securityFixes))
                  + (n.requiredQRXVersion + "\0" + (n.requiredAdapterVersion + "\0" + (n.minSuiteVersion + "\0"))))))
  {
    var last := [n.requiredQRXVersion, n.requiredAdapterVersion, n.minSuiteVersion];
    var l1, l2, l3 := ListFields(n.changes), ListFields(n.breakingChanges), ListFields(n.securityFixes);
    ThreeEncoded(n.requiredQRXVersion, n.requiredAdapterVersion, n.minSuiteVersion);
    EncodeAppends(l3, last);
    EncodeAppends(l2, l3 + last);
    EncodeAppends(l1, l2 + (l3 + last));
    var rest := l1 + (l2 + (l3 + last));
    assert NoteFields(n) == [n.releasedAt] + rest;
    assert ([n.releasedAt] + rest)[1..] == rest;
  }

  lemma ThreeEncoded(a: string, b: string, c: string)
    ensures Encode([a, b, c]) == a + "\0" + (b + "\0" + (c + "\0"))
  {
    assert [a, b, c][1..] == [b, c] && [b, c][1..] == [c] && [c][1..] == [];
    assert Encode([c]) == c + "\0";
    assert Encode([b, c]) == b + "\0" + Encode([c]);
  }

  lemma FourEncoded(a: string, b: string, c: string, d: string)
    ensures Encode([a, b, c, d]) == a + "\0" + (b + "\0" + (c + "\0" + (d + "\0")))
  {
    ThreeEncoded(b, c, d);
    assert [a, b, c, d][1..] == [b, c, d];
  }

  /* ---------- The code ---------- */

  /** The `write` closure: appends one NUL-terminated field to the `fields` written so far. */
  method Write(buf: string, field: string, ghost fields: seq<string>) returns (out: string)
    requires buf == Encode(fields)
    ensures out == Encode(fields + [field])
  {
    out := buf + (field + "\0");
    EncodeAppends(fields, [field]);
  }

  method WriteList(buf: string, items: seq<string>, ghost fields: seq<string>) returns (out: string)
    requires buf == Encode(fields)
    ensures out == Encode(fields + ListFields(items))
  {
    ghost var done := fields + [Decimal.OfInt(|items|)];
    out := Write(buf, Decimal.OfInt(|items|), fields);
    assert done + items[..0] == done;
    for i := 0 to |items|
      invariant out == Encode(done + items[..i])
    {
      out := Write(out, items[i], done + items[..i]);
      assert done + items[..i] + [items[i]] == done + items[..i + 1];
    }
    assert done + items[..|items|] == fields + ListFields(items);
  }

  method WriteNotes(buf: string, n: ReleaseNotes, ghost fields: seq<string>) returns (out: string)
    requires buf == Encode(fields)
    ensures out == Encode(fields + NoteFields(n))
  {
    ghost var f := fields + [n.releasedAt];
    out := Write(buf, n.releasedAt, fields);
    out := WriteList(out, n.changes, f);
    f := f + ListFields(n.changes);
    out := WriteList(out, n.breakingChanges, f);
    f := f + ListFields(n.breakingChanges);
    out := WriteList(out, n.securityFixes, f);
    f := f + ListFields(n.securityFixes);
    out := Write(out, n.requiredQRXVersion, f);
    f := f + [n.requiredQRXVersion];
    out := Write(out, n.requiredAdapterVersion, f);
    f := f + [n.requiredAdapterVersion];
    out := Write(out, n.minSuiteVersion, f);
    f := f + [n.minSuiteVersion];
    NoteFieldsInOrder(fields, n);
  }

  lemma NoteFieldsInOrder(fields: seq<string>, n: ReleaseNotes)
    ensures fields + [n.releasedAt] + ListFields(n.changes) + ListFields(n.breakingChanges)
            + ListFields(n.securityFixes) + [n.requiredQRXVersion] + [n.requiredAdapterVersion] + [n.minSuiteVersion]
            == fields + NoteFields(n)
  {
  }

  lemma Associate<T>(a: seq<T>, b: seq<T>, c: seq<T>)
    ensures a + b + c == a + (b + c)
  {
  }

  lemma HeadInOrder(fields: seq<string>, name: string, c: ComponentUpdate)
    ensures fields + [name] + [c.version] + [c.url] + [c.sha256] == fields + [name, c.version, c.url, c.sha256]
  {
  }

  method WriteComponent(buf: string, name: string, c: ComponentUpdate, ghost fields: seq<string>)
    returns (out: string)
    requires buf == Encode(fields)
    ensures out == Encode(fields + ComponentFields(name, c))
  {
    hide Encode, NoteFields;
    ghost var head := [name, c.version, c.url, c.sha256];
    out := Write(buf, name, fields);
    out := Write(out, c.version, fields + [name]);
    out := Write(out, c.url, fields + [name] + [c.version]);
    out := Write(out, c.sha256, fields + [name] + [c.version] + [c.url]);
    HeadInOrder(fields, name, c);
    match c.notes {
      case None =>
        out := Write(out, "0", fields + head);
        Associate(fields, head, ["0"]);
      case Some(n) =>
        out := Write(out, "1", fields + head);
        out := WriteNotes(out, n, fields + head + ["1"]);
        Associate(fields + head, ["1"], NoteFields(n));
        Associate(fields, head, ["1"] + NoteFields(n));
    }
  }

  /** The bytes signed and verified; the order in which the map yields its names is irrelevant. */
  method CanonicalPayload(m: Manifest) returns (buf: string)
    ensures buf == Payload(m)
  {
    var names := Lex.Sort(m.components.Keys);
    assert names == SortedNames(m);
    ghost var v := Decimal.OfInt(m.manifestVersion);
    buf := Write("", Decimal.OfInt(m.manifestVersion), []);
    buf := Write(buf, m.channel, [v]);
    buf := Write(buf, m.suiteVersion, [v] + [m.channel]);
    buf := Write(buf, m.releasedAt, [v] + [m.channel] + [m.suiteVersion]);
    ghost var fields := HeaderFields(m);
    assert [] + [v] == [v];
    assert [v] + [m.channel] + [m.suiteVersion] + [m.releasedAt] == fields;
    buf := WriteComponents(buf, m.components, names, fields);
  }

  method WriteComponents(buf: string, components: map<string, ComponentUpdate>, names: seq<string>,
                         ghost fields: seq<string>)
    returns (out: string)
    requires buf == Encode(fields)
    requires forall name | name in names :: name in components
    ensures out == Encode(fields + ComponentsFields(components, names))
  {
    out := buf;
    assert fields + [] == fields;
    for i := 0 to |names|
      invariant out == Encode(fields + ComponentsFields(components, names[..i]))
    {
      ghost var done := fields + ComponentsFields(components, names[..i]);
      out := WriteComponent(out, names[i], components[names[i]], done);
      ComponentsFieldsGrow(components, names, i);
      Associate(fields, ComponentsFields(components, names[..i]), ComponentFields(names[i], components[names[i]]));
    }
    assert names[..|names|] == names;
  }

  lemma {:induction false} ComponentsFieldsGrow(components: map<string, ComponentUpdate>, names: seq<string>, i: nat)
    requires forall name | name in names :: name in components
    requires i < |names|
    ensures ComponentsFields(components, names[..i + 1])
            == ComponentsFields(components, names[..i]) + ComponentFields(names[i], components[names[i]])
  {
    var first := ComponentFields(names[0], components[names[0]]);
    if i == 0 {
      assert names[..1][1..] == [] && names[..0] == [];
      assert ComponentsFields(components, names[..1]) == first + [];
    } else {
      ComponentsFieldsGrow(components, names[1..], i - 1);
      assert names[..i + 1][1..] == names[1..][..i] && names[..i][1..] == names[1..][..i - 1];
      Associate(first, ComponentsFields(components, names[1..][..i - 1]),
                ComponentFields(names[i], components[names[i]]));
    }
  }
}
