/** `content_base` and `multipart` as objects: a tree of contents, each multipart with a cached
    body and a boundary chosen on first use. */
module MultipartContent {
  import opened Text
  import opened OrderedMap
  import opened Grammar
  import opened Multipart

  datatype DataSet = DataSet(header: Fields, content: Content)

  // ---- Boundaries

  predicate Alphanumeric(c: char) {
    'a' <= c <= 'z' || 'A' <= c <= 'Z' || '0' <= c <= '9'
  }

  /** What `refresh_boundary` can produce. */
  predicate Generated(boundary: string) {
    && 32 <= |boundary| <= 81
    && (forall i :: 0 <= i < 20 ==> boundary[i] == '-')
    && forall i :: 20 <= i < |boundary| ==> Alphanumeric(boundary[i])
  }

  lemma GeneratedIsGood(boundary: string)
    requires Generated(boundary)
    ensures boundary != "" && GoodBoundary(boundary)
  {
  }

  /** `nonce_base`: a to z, A to Z, 1 to 9, 0. */
  function NonceChar(k: nat): (c: char)
    requires k < 62
    ensures Alphanumeric(c)
  {
    if k < 26 then ('a' as int + k) as char
    else if k < 52 then ('A' as int + (k - 26)) as char
    else if k < 61 then ('1' as int + (k - 52)) as char
    else '0'
  }

  /** `nonce`, with any values from the random generator. */
  method Nonce() returns (result: string)
    ensures 12 <= |result| < 62 && forall i :: 0 <= i < |result| ==> Alphanumeric(result[i])
  {
    var length: nat :| 12 <= length < 62;
    result := "";
    for i := 0 to length
      invariant |result| == i && forall j :: 0 <= j < i ==> Alphanumeric(result[j])
    {
      var k: nat :| k < 62;
      result := result + [NonceChar(k)];
    }
  }

  // ---- Media types

  function AttributesText(es: seq<Entry>): string {
    if es == [] then "" else "; " + es[0].0 + "=" + es[0].1 + AttributesText(es[1..])
  }

  /** `content_base::get_content_type`, given the text of the attributes. */
  function MediaType(type_: string, attributes: string): string {
    type_ + attributes
  }

  function AttributeTexts(es: seq<Entry>): (texts: seq<string>)
    ensures |texts| == |es| && forall i :: 0 <= i < |es| ==> texts[i] == es[i].0 + ("=" + es[i].1)
  {
    if es == [] then [] else [es[0].0 + ("=" + es[0].1)] + AttributeTexts(es[1..])
  }

  /** Each attribute stands behind a "; " of its own. */
  lemma AttributesSplit(es: seq<Entry>)
    requires forall i :: 0 <= i < |es| ==> !Contains(AttributeTexts(es)[i], "; ")
    ensures SplitOn(AttributesText(es), "; ") == [""] + AttributeTexts(es)
  {
    AttributesBehind("", es);
    var text := AttributesText(es);
    assert "" + text == text;
  }

  lemma FirstAttribute(es: seq<Entry>)
    requires es != []
    ensures AttributesText(es) == "; " + (es[0].0 + ("=" + es[0].1) + AttributesText(es[1..]))
  {
  }

  lemma {:induction false} AttributesBehind(x: string, es: seq<Entry>)
    requires !Contains(x, "; ") && forall i :: 0 <= i < |es| ==> !Contains(AttributeTexts(es)[i], "; ")
    ensures SplitOn(x + AttributesText(es), "; ") == [x] + AttributeTexts(es)
    decreases |es|
  {
    if es == [] {
      assert x + "" == x;
    } else {
      var p, more := es[0].0 + ("=" + es[0].1), es[1..];
      assert AttributeTexts(es) == [p] + AttributeTexts(more);
      forall i | 0 <= i < |more| ensures !Contains(AttributeTexts(more)[i], "; ") {
        assert AttributeTexts(more)[i] == AttributeTexts(es)[i + 1];
      }
      assert !Contains(AttributeTexts(es)[0], "; ");
      AttributesBehind(p, more);
      FirstAttribute(es);
      SplitStep(x, "; ", p + AttributesText(more));
    }
  }

  // ---- What an operation may change in the abstract tree

  /** `u` is `t` with some boundaries chosen that were not chosen before. */
  predicate Fills(t: Tree, u: Tree)
    decreases t
  {
    match t
    case Leaf(_, _) => u == t
    case Multi(mediaType, boundary, parts) =>
      && u.Multi? && u.mediaType == mediaType && |u.parts| == |parts|
      && (boundary == "" || u.boundary == boundary)
      && forall i :: 0 <= i < |parts| ==>
          u.parts[i].header == parts[i].header && Fills(parts[i].content, u.parts[i].content)
  }

  /** Every boundary below is chosen. */
  predicate Chosen(t: Tree) {
    t.Multi? ==> t.boundary != "" && forall i :: 0 <= i < |t.parts| ==> Chosen(t.parts[i].content)
  }

  lemma {:induction false} FillsReflexive(t: Tree)
    ensures Fills(t, t)
    decreases t
  {
    if t.Multi? {
      forall i | 0 <= i < |t.parts| ensures Fills(t.parts[i].content, t.parts[i].content) {
        FillsReflexive(t.parts[i].content);
      }
    }
  }

  lemma {:induction false} FillsTransitive(t: Tree, u: Tree, v: Tree)
    requires Fills(t, u) && Fills(u, v)
    ensures Fills(t, v)
    decreases t
  {
    if t.Multi? {
      forall i | 0 <= i < |t.parts| ensures Fills(t.parts[i].content, v.parts[i].content) {
        FillsTransitive(t.parts[i].content, u.parts[i].content, v.parts[i].content);
      }
    }
  }

  /** Once every boundary is chosen, nothing changes any more: content type and body are final. */
  lemma {:induction false} ChosenIsFinal(t: Tree, u: Tree)
    requires Chosen(t) && Fills(t, u)
    ensures t == u
    decreases t
  {
    if t.Multi? {
      forall i | 0 <= i < |t.parts| ensures t.parts[i] == u.parts[i] {
        ChosenIsFinal(t.parts[i].content, u.parts[i].content);
      }
    }
  }

  // ---- The objects

  class Content {
    const isMultipart: bool
    var type_: string
    var attributes: string    // as `content_base::get_content_type` prints them
    var text: string          // the body of content that is not multipart
    var raw: seq<DataSet>
    var data: string
    var boundary: string
    var generated: bool
    ghost var Repr: set<Content>    // this content and all below it; parts may share contents

    /** `o` stands above its parts in the order that `Repr` makes. */
    ghost predicate Ranked(o: Content)
      requires o in Repr
      reads this`Repr, Repr`raw, Repr`Repr
    {
      && o in o.Repr && o.Repr <= Repr
      && (forall p :: p in o.Repr ==> p.Repr <= o.Repr && (p == o || o !in p.Repr))
      && (!o.isMultipart ==> o.raw == [] && o.Repr == {o})
      && forall i :: 0 <= i < |o.raw| ==>
          o.raw[i].content in o.Repr && o.raw[i].content.Repr <= o.Repr - {o}
    }

    /** No content is below itself. */
    ghost predicate Acyclic()
      reads this`Repr, Repr`raw, Repr`Repr
    {
      this in Repr && forall o :: o in Repr ==> Ranked(o)
    }

    lemma PartAcyclic(i: nat)
      requires Acyclic() && i < |raw|
      ensures raw[i].content in Repr && raw[i].content.Acyclic() && raw[i].content.Repr < Repr
    {
      assert Ranked(this);
      BelowAcyclic(raw[i].content);
    }

    lemma BelowAcyclic(c: Content)
      requires Acyclic() && c in Repr
      ensures c.Acyclic()
    {
      assert Ranked(c);
      forall o | o in c.Repr ensures c.Ranked(o) {
        assert Ranked(o);
      }
    }

    /** This content as a tree, with caches forgotten and shared parts repeated. */
    ghost function Now(): (t: Tree)
      requires Acyclic()
      reads this`Repr, Repr`raw, Repr`Repr, Repr`type_, Repr`attributes, Repr`text, Repr`boundary
      ensures !isMultipart ==> t == Leaf(MediaType(type_, attributes), text)
      ensures isMultipart ==> t == Multi(MediaType(type_, attributes), boundary, PartsNow(|raw|))
      decreases Repr, |raw| + 1
    {
      if isMultipart then Multi(MediaType(type_, attributes), boundary, PartsNow(|raw|))
      else Leaf(MediaType(type_, attributes), text)
    }

    ghost function PartNow(i: nat): Part
      requires Acyclic() && i < |raw|
      reads this`Repr, Repr`raw, Repr`Repr, Repr`type_, Repr`attributes, Repr`text, Repr`boundary
      decreases Repr, 0
    {
      PartAcyclic(i);
      Part(raw[i].header, raw[i].content.Now())
    }

    /** The first `n` parts. */
    ghost function PartsNow(n: nat): (ps: seq<Part>)
      requires Acyclic() && n <= |raw|
      reads this`Repr, Repr`raw, Repr`Repr, Repr`type_, Repr`attributes, Repr`text, Repr`boundary
      ensures |ps| == n && forall i :: 0 <= i < n ==> ps[i] == PartNow(i)
      decreases Repr, n
    {
      if n == 0 then [] else PartsNow(n - 1) + [PartNow(n - 1)]
    }

    /** A cached body is the rendering of the content as it is now. */
    ghost predicate CacheGood()
      requires Acyclic()
      reads this`data, this`generated, this`Repr, Repr`raw, Repr`Repr
      reads Repr`type_, Repr`attributes, Repr`text, Repr`boundary
    {
      isMultipart && generated ==> Chosen(Now()) && data == Body(Now())
    }

    ghost predicate Valid()
      reads this`Repr, Repr
    {
      Acyclic() && forall o :: o in Repr ==>
        o.Acyclic() && o.CacheGood() && (o.boundary == "" || Generated(o.boundary))
    }

    lemma BelowValid(c: Content)
      requires Valid() && c in Repr
      ensures c.Valid()
    {
      assert Ranked(c);
    }

    constructor Text(body: string, type_: string)
      ensures Valid() && fresh(Repr) && Now() == Leaf(MediaType(type_, ""), body)
    {
      isMultipart := false;
      this.type_, attributes, text, raw := type_, "", body, [];
      data, boundary, generated := "", "", false;
      Repr := {this};
    }

    /** The parts may share contents. */
    constructor Multipart(multipartType: string, data: seq<DataSet>)
      requires forall i :: 0 <= i < |data| ==> data[i].content.Valid()
      ensures Valid() && isMultipart && raw == data && boundary == "" && !generated
      ensures type_ == "multipart/" + multipartType && attributes == ""
      ensures Repr == {this} + ObjectsOf(data)
    {
      isMultipart := true;
      this.type_, attributes, text, raw := "multipart/" + multipartType, "", "", data;
      this.data, boundary, generated := "", "", false;
      Repr := {this} + ObjectsOf(data);
      new;
      Assembled(this);
    }

    /** `set_data`; the parts may share contents.  A cached body, even a stale one, is dropped. */
    method SetData(data: seq<DataSet>)
      requires isMultipart && (boundary == "" || Generated(boundary))
      requires PartsOf(this, data)
      modifies this`raw, this`generated, this`Repr
      ensures Valid() && raw == data && !generated && Repr == {this} + old(ObjectsOf(data))
      ensures forall i :: 0 <= i < |data| ==> PartNow(i) == Part(data[i].header, old(data[i].content.Now()))
    {
      ghost var below := ObjectsOf(data);
      raw, generated, Repr := data, false, {this} + below;
      forall i | 0 <= i < |data|
        ensures data[i].content.Valid() && data[i].content.Now() == old(data[i].content.Now())
      {
        KeptAcyclic(data[i].content);
      }
      Assembled(this);
    }

    /** After a change of what its parts contain, `Repr` is what is below this content now.  A
        cached body stays as it is. */
    ghost method Regroup()
      requires isMultipart && AcyclicParts(this, raw)
      modifies this`Repr
      ensures Acyclic() && Repr == {this} + old(ObjectsOf(raw))
      ensures forall i :: 0 <= i < |raw| ==> PartNow(i) == Part(raw[i].header, old(raw[i].content.Now()))
      ensures old(PartsOf(this, raw)) && !generated && (boundary == "" || Generated(boundary)) ==> Valid()
    {
      Repr := {this} + ObjectsOf(raw);
      forall i | 0 <= i < |raw|
        ensures raw[i].content.Acyclic() && raw[i].content.Now() == old(raw[i].content.Now())
        ensures old(raw[i].content.Valid()) ==> raw[i].content.Valid()
      {
        KeptAcyclic(raw[i].content);
      }
      AssembledAcyclic(this);
      if old(PartsOf(this, raw)) && !generated && (boundary == "" || Generated(boundary)) {
        Assembled(this);
      }
    }

    /** `set_attribute` */
    method SetAttribute(attr: Fields)
      requires Valid()
      modifies this`attributes
      ensures Valid() && attributes == AttributesText(Entries(attr))
      ensures Now() == old(Now()).(mediaType := MediaType(type_, attributes)) && Body(Now()) == Body(old(Now()))
    {
      attributes := AttributesText(Entries(attr));
      Retyped(this);
    }

    /** `set_multipart_type`: the cached body stays good, since it does not contain the type. */
    method SetMultipartType(multipartType: string)
      requires Valid() && isMultipart
      modifies this`type_
      ensures Valid() && type_ == "multipart/" + multipartType
      ensures Now() == old(Now()).(mediaType := MediaType(type_, attributes)) && Body(Now()) == Body(old(Now()))
    {
      type_ := "multipart/" + multipartType;
      Retyped(this);
    }

    /** `text::set_body` */
    method SetText(body: string)
      requires Valid() && !isMultipart
      modifies this`text
      ensures Valid() && Now() == Leaf(MediaType(type_, attributes), body)
    {
      text := body;
      assert Ranked(this);
    }

    /** `refresh_boundary` */
    method RefreshBoundary()
      modifies this`boundary
      ensures Generated(boundary)
    {
      var nonce := Nonce();
      boundary := "--------------------" + nonce;
    }

    /** The lazy choice in front of `get_content_type` and `get_body`. */
    method EnsureBoundary()
      requires Valid() && isMultipart
      modifies this`boundary
      ensures Valid() && boundary != "" && Grown(Repr)
    {
      if boundary == "" {
        RefreshBoundary();
        StaysValid(this);
      }
    }

    /** `get_content_type`: chooses the boundary if there is none yet. */
    method GetContentType() returns (s: string)
      requires Valid()
      modifies this`boundary
      ensures Valid() && Grown(Repr) && s == ContentType(Now())
      ensures s == type_ + attributes + if isMultipart then "; boundary=\"" + boundary + "\"" else ""
      ensures isMultipart ==> boundary != ""
    {
      s := MediaType(type_, attributes);
      if isMultipart {
        EnsureBoundary();
        s := s + (BOUNDARY_MARK + (boundary + "\""));
      }
    }

    /** `get_body`.  A cached body is returned as it is, good or not. */
    method GetBody() returns (body: string)
      requires Valid() || (isMultipart && generated)
      modifies Repr`data, Repr`boundary, Repr`generated
      ensures old(isMultipart && generated) ==> body == old(data) && unchanged(Repr)
      ensures isMultipart ==> generated && body == data
      ensures old(Valid()) ==> Valid() && Grown(Repr) && body == Body(Now()) && Chosen(Now())
      ensures old(Valid()) && isMultipart && Clean(Now()) ==> ReadsBack(body, Now())
      decreases Repr, 2
    {
      if !isMultipart {
        return text;
      }
      if !generated {
        Generate();
      }
      body := data;
      if Acyclic() && Clean(Now()) {
        BodyReadsBack(Now());
      }
    }

    /** What the parts are now, from the first one on, with every boundary in them chosen. */
    ghost predicate Done(parts: seq<Part>)
      requires Acyclic()
      reads this`Repr, Repr`raw, Repr`Repr, Repr`type_, Repr`attributes, Repr`text, Repr`boundary
    {
      |parts| <= |raw| && forall i :: 0 <= i < |parts| ==> parts[i] == PartNow(i) && Chosen(parts[i].content)
    }

    /** `get_body` without a cached body. */
    method Generate()
      requires Valid() && isMultipart && !generated
      modifies Repr`data, Repr`boundary, Repr`generated
      ensures Valid() && generated && Grown(Repr)
      decreases Repr, 1
    {
      EnsureBoundary();
      Store("", []);
      ghost var parts := RenderParts();
      Close(parts);
    }

    /** The closing delimiter; now the cache is filled. */
    method Close(ghost parts: seq<Part>)
      requires Valid() && isMultipart && boundary != "" && !generated
      requires Done(parts) && |parts| == |raw| && data == PartsText(parts, boundary)
      modifies this`data, this`generated
      ensures Valid() && generated && Grown(Repr)
    {
      assert Now().parts == parts;
      Store(data + ("--" + (boundary + "--")), parts);
      Keep();
    }

    /** From now on the cache is valid. */
    method Keep()
      requires Valid() && isMultipart && data == Body(Now()) && Chosen(Now())
      modifies this`generated
      ensures Valid() && generated && Grown(Repr)
    {
      generated := true;
      OwnCache(this);
    }

    /** The outer loop of `get_body`. */
    method RenderParts() returns (ghost parts: seq<Part>)
      requires Valid() && isMultipart && !generated && data == "" && boundary != ""
      modifies this`data, (Repr - {this})`data, (Repr - {this})`boundary, (Repr - {this})`generated
      ensures Valid() && !generated && Grown(Repr)
      ensures Done(parts) && |parts| == |raw| && data == PartsText(parts, boundary)
      decreases Repr, 0
    {
      parts := [];
      for i := 0 to |raw|
        invariant Valid() && !generated && Grown(Repr)
        invariant Done(parts) && |parts| == i && data == PartsText(parts, boundary)
      {
        parts := Round(i, parts);
      }
    }

    /** One round of the outer loop. */
    method Round(i: nat, ghost parts: seq<Part>) returns (ghost next: seq<Part>)
      requires Valid() && isMultipart && !generated && boundary != "" && |parts| == i < |raw|
      requires Done(parts) && data == PartsText(parts, boundary)
      modifies this`data, (Repr - {this})`data, (Repr - {this})`boundary, (Repr - {this})`generated
      ensures Valid() && !generated && Grown(Repr)
      ensures Done(next) && |next| == i + 1 && data == PartsText(next, boundary)
      decreases Repr, 0, 1
    {
      var chunk;
      chunk, next := RenderNext(i, parts);
      Store(data + chunk, next);
    }

    /** The cache while it is not valid. */
    method Store(s: string, ghost parts: seq<Part>)
      requires Valid() && !generated && Done(parts)
      modifies this`data
      ensures Valid() && data == s && Done(parts) && Grown(Repr) && Now() == old(Now())
    {
      data := s;
      OwnCache(this);
    }

    lemma DoneNext(parts: seq<Part>)
      requires Acyclic() && Done(parts) && |parts| < |raw| && Chosen(PartNow(|parts|).content)
      ensures Done(parts + [PartNow(|parts|)])
    {
    }

    /** A part is rendered; those before it, which may share contents with it, stay as they are. */
    method RenderNext(i: nat, ghost parts: seq<Part>) returns (chunk: string, ghost next: seq<Part>)
      requires Valid() && isMultipart && |parts| == i < |raw| && Done(parts)
      modifies (Repr - {this})`data, (Repr - {this})`boundary, (Repr - {this})`generated
      ensures Valid() && Grown(Repr) && Done(next) && |next| == i + 1
      ensures PartsText(next, boundary) == PartsText(parts, boundary) + chunk
      decreases Repr, 0, 0
    {
      PartAcyclic(i);
      BelowValid(raw[i].content);
      var part := RenderPart(raw[i].content, raw[i].header);
      StaysValid(this);
      PartsStay(this, parts);
      next := parts + [PartNow(i)];
      DoneNext(parts);
      chunk := "--" + (boundary + (CRLF + (part + (CRLF + ""))));
      PartsTextAppend(parts, PartNow(i), boundary);
    }
  }

  /** A change of type concerns neither the parts nor the rendered body. */
  twostate lemma Retyped(c: Content)
    requires old(c.Valid())
    requires forall o :: o in old(c.Repr) ==>
      && o.text == old(o.text) && o.raw == old(o.raw) && o.Repr == old(o.Repr) && o.boundary == old(o.boundary)
      && o.data == old(o.data) && o.generated == old(o.generated)
      && (o != c ==> o.type_ == old(o.type_) && o.attributes == old(o.attributes))
    ensures c.Valid() && c.Now() == old(c.Now()).(mediaType := MediaType(c.type_, c.attributes))
    ensures Body(c.Now()) == Body(old(c.Now()))
  {
    assert old(c.Ranked(c));
    forall o | o in c.Repr && o != c ensures o.Acyclic() && o.Now() == old(o.Now()) {
      assert c !in o.Repr;
    }
    assert c.Acyclic();
    assert c.isMultipart ==> c.Now().parts == old(c.Now()).parts;
  }

  /** A cached body does not notice changes below it that are made through other references: it
      is stale exactly when the content has become another tree. */
  twostate lemma StaleWhen(c: Content)
    requires old(c.Valid()) && c.isMultipart && c.generated && c.Acyclic()
    requires c.type_ == old(c.type_) && c.attributes == old(c.attributes) && c.boundary == old(c.boundary)
    requires c.data == old(c.data) && c.generated == old(c.generated)
    requires Clean(old(c.Now())) && Clean(c.Now())
    ensures c.data != Body(c.Now()) <==> c.Now() != old(c.Now())
  {
    assert old(c.CacheGood());
    if c.data == Body(c.Now()) {
      RenderingInjective(old(c.Now()), c.Now());
    }
  }

  twostate lemma PartTexts(c: Content, new i: nat)
    requires old(c.Acyclic()) && c.Acyclic() && c.isMultipart && i < |c.raw| && c.raw == old(c.raw)
    requires !c.raw[i].content.isMultipart
    ensures var t := old(c.Now()).parts[i].content; t.Leaf? && t.body == old(c.raw[i].content.text)
    ensures var t := c.Now().parts[i].content; t.Leaf? && t.body == c.raw[i].content.text
  {
    assert old(c.Now()).parts[i] == old(c.PartNow(i)) && old(c.PartNow(i)).content == old(c.raw[i].content.Now());
    assert c.Now().parts[i] == c.PartNow(i) && c.PartNow(i).content == c.raw[i].content.Now();
  }

  /** A rendered content in which nothing changed but caches is the same tree. */
  twostate lemma SameTree(c: Content)
    requires old(c.Acyclic()) && Grown(old(c.Repr)) && Chosen(old(c.Now()))
    ensures c.Acyclic() && c.Now() == old(c.Now())
  {
    GrownNow(c);
    ChosenIsFinal(old(c.Now()), c.Now());
  }

  /** In particular when the text of one of its parts has become another one. */
  twostate lemma StaleByText(c: Content, new i: nat)
    requires old(c.Valid()) && c.isMultipart && c.generated && i < |c.raw| && !c.raw[i].content.isMultipart
    requires forall o :: o in old(c.Repr) ==>
      && o.type_ == old(o.type_) && o.attributes == old(o.attributes) && o.raw == old(o.raw)
      && o.Repr == old(o.Repr) && o.boundary == old(o.boundary)
      && o.data == old(o.data) && o.generated == old(o.generated)
      && (o != c.raw[i].content ==> o.text == old(o.text))
    requires c.Acyclic() && Clean(old(c.Now())) && Clean(c.Now())
    ensures c.data != Body(c.Now()) <==> c.raw[i].content.text != old(c.raw[i].content.text)
  {
    StaleWhen(c);
    PartTexts(c, i);
    if c.raw[i].content.text == old(c.raw[i].content.text) {
      assert old(c.CacheGood());
      SameTree(c);
    }
  }

  /** Changes outside the contents below it do not concern a content. */
  twostate lemma KeptAcyclic(c: Content)
    requires old(c.Acyclic()) && Grown(old(c.Repr))
    requires forall o :: o in old(c.Repr) ==>
      o.data == old(o.data) && o.generated == old(o.generated) && o.boundary == old(o.boundary)
    ensures c.Acyclic() && c.Now() == old(c.Now()) && (old(c.Valid()) ==> c.Valid())
  {
    GrownNow(c);
    if old(c.Valid()) {
      StaysValid(c);
    }
  }

  lemma PartWith(parts: seq<DataSet>, o: Content) returns (i: nat)
    requires o in ObjectsOf(parts)
    ensures i < |parts| && o in parts[i].content.Repr
  {
    if o in parts[0].content.Repr {
      i := 0;
    } else {
      i := PartWith(parts[1..], o);
      i := i + 1;
    }
  }

  lemma BelowPart(c: Content, i: nat, o: Content)
    requires c.Repr == {c} + ObjectsOf(c.raw) && i < |c.raw| && c.raw[i].content.Acyclic()
    requires o in c.raw[i].content.Repr
    ensures o in c.Repr && c.Ranked(o)
  {
    assert c.raw[i].content.Repr <= c.Repr;
    assert c.raw[i].content.Ranked(o);
  }

  /** Contents that do not contain `c`. */
  ghost predicate AcyclicParts(c: Content, parts: seq<DataSet>)
    reads (set d | d in parts :: d.content)`Repr, (set d, o | d in parts && o in d.content.Repr :: o)
  {
    forall i :: 0 <= i < |parts| ==> parts[i].content.Acyclic() && c !in parts[i].content.Repr
  }

  /** Valid contents that do not contain `c`. */
  ghost predicate PartsOf(c: Content, parts: seq<DataSet>)
    reads (set d | d in parts :: d.content)`Repr, (set d, o | d in parts && o in d.content.Repr :: o)
  {
    forall i :: 0 <= i < |parts| ==> parts[i].content.Valid() && c !in parts[i].content.Repr
  }

  lemma ClosedBelow(c: Content)
    requires c.isMultipart && c.Repr == {c} + ObjectsOf(c.raw) && AcyclicParts(c, c.raw)
    ensures forall p :: p in c.Repr ==> p.Repr <= c.Repr && (p == c || c !in p.Repr)
  {
    forall p | p in c.Repr ensures p.Repr <= c.Repr && (p == c || c !in p.Repr) {
      if p != c {
        var i := PartWith(c.raw, p);
        BelowPart(c, i, p);
      }
    }
  }

  lemma WholeRanked(c: Content)
    requires c.isMultipart && c.Repr == {c} + ObjectsOf(c.raw) && AcyclicParts(c, c.raw)
    ensures c.Ranked(c)
  {
    ClosedBelow(c);
    forall i | 0 <= i < |c.raw| ensures c.raw[i].content in c.Repr && c.raw[i].content.Repr <= c.Repr - {c} {
      BelowPart(c, i, c.raw[i].content);
    }
  }

  /** Parts that do not contain the whole make an acyclic whole. */
  lemma AssembledAcyclic(c: Content)
    requires c.isMultipart && c.Repr == {c} + ObjectsOf(c.raw) && AcyclicParts(c, c.raw)
    ensures c.Acyclic()
  {
    forall o | o in c.Repr && o != c ensures c.Ranked(o) {
      var i := PartWith(c.raw, o);
      BelowPart(c, i, o);
    }
    WholeRanked(c);
  }

  /** Valid parts that do not contain the whole make a valid whole. */
  lemma Assembled(c: Content)
    requires c.isMultipart && !c.generated && (c.boundary == "" || Generated(c.boundary))
    requires c.Repr == {c} + ObjectsOf(c.raw) && PartsOf(c, c.raw)
    ensures c.Valid()
  {
    AssembledAcyclic(c);
    forall o | o in c.Repr && o != c
      ensures o.Acyclic() && o.CacheGood() && (o.boundary == "" || Generated(o.boundary))
    {
      var i := PartWith(c.raw, o);
      c.raw[i].content.BelowValid(o);
    }
  }

  ghost function ObjectsOf(data: seq<DataSet>): (objects: set<Content>)
    reads (set d | d in data :: d.content)`Repr
    ensures forall i :: 0 <= i < |data| ==> data[i].content.Repr <= objects
  {
    if data == [] then {} else data[0].content.Repr + ObjectsOf(data[1..])
  }

  /** One part: its header lines, its content's type, then its content's body, each of which may
      choose boundaries below. */
  method RenderPart(c: Content, header: Fields) returns (part: string)
    requires c.Valid()
    modifies c.Repr`data, c.Repr`boundary, c.Repr`generated
    ensures c.Valid() && Grown(c.Repr) && Chosen(c.Now()) && part == PartText(Part(header, c.Now()))
    decreases c.Repr, 3
  {
    var lines := HeaderLines(header);
    var contentType := c.GetContentType();
    ghost var t1 := c.Now();
    label Typed:
    var body := c.GetBody();
    GrownNow@Typed(c);
    SameContentType(t1, c.Now());
    part := lines + (CONTENT_TYPE + (": " + (contentType + (BLANK_LINE + body))));
  }

  /** Nothing changed but caches, and boundaries that were not chosen before. */
  twostate predicate Grown(contents: set<Content>)
    reads contents
  {
    forall o :: o in contents ==>
      && o.type_ == old(o.type_) && o.attributes == old(o.attributes) && o.text == old(o.text)
      && o.raw == old(o.raw) && o.Repr == old(o.Repr)
      && (o.boundary == old(o.boundary) || old(o.boundary) == "")
  }

  twostate lemma GrownNow(c: Content)
    requires old(c.Acyclic()) && Grown(old(c.Repr))
    ensures c.Acyclic() && Fills(old(c.Now()), c.Now())
    decreases old(c.Repr)
  {
    assert c.Acyclic();
    if c.isMultipart {
      forall i | 0 <= i < |c.raw| ensures Fills(old(c.Now()).parts[i].content, c.Now().parts[i].content) {
        c.PartAcyclic(i);
        GrownNow(c.raw[i].content);
      }
    }
  }

  twostate lemma PartsStay(c: Content, new parts: seq<Part>)
    requires old(c.Acyclic()) && Grown(old(c.Repr)) && old(c.Done(parts))
    ensures c.Acyclic() && c.Done(parts)
  {
    GrownNow(c);
    forall i | 0 <= i < |parts| ensures parts[i] == c.PartNow(i) {
      c.PartAcyclic(i);
      GrownNow(c.raw[i].content);
      assert parts[i] == old(c.PartNow(i));
      ChosenIsFinal(old(c.raw[i].content.Now()), c.raw[i].content.Now());
    }
  }

  /** Where a cache is neither touched nor wrong, a content stays valid. */
  twostate lemma StaysValid(c: Content)
    requires old(c.Valid()) && Grown(old(c.Repr))
    requires forall o :: o in c.Repr ==> o.boundary == "" || Generated(o.boundary)
    requires forall o :: o in c.Repr ==>
      (o.data == old(o.data) && o.generated == old(o.generated)) || (o.Acyclic() && o.CacheGood())
    ensures c.Valid()
  {
    GrownNow(c);
    forall o | o in c.Repr ensures o.Acyclic() && o.CacheGood() {
      c.BelowAcyclic(o);
      if o.data == old(o.data) && o.generated == old(o.generated) {
        CacheStays(o);
      }
    }
  }

  /** Likewise where only the content's own cache changed, and is right. */
  twostate lemma OwnCache(c: Content)
    requires old(c.Valid()) && Grown(old(c.Repr)) && c.boundary == old(c.boundary)
    requires forall o :: o in old(c.Repr) && o != c ==>
      o.data == old(o.data) && o.generated == old(o.generated) && o.boundary == old(o.boundary)
    requires c.Acyclic() ==> c.CacheGood()
    ensures c.Valid()
  {
    GrownNow(c);
    StaysValid(c);
  }

  twostate lemma CacheStays(o: Content)
    requires old(o.Acyclic()) && old(o.CacheGood()) && Grown(old(o.Repr))
    requires o.data == old(o.data) && o.generated == old(o.generated)
    ensures o.Acyclic() && o.CacheGood()
  {
    GrownNow(o);
    if o.isMultipart && o.generated {
      SameTree(o);
    }
  }

  lemma {:induction false} PartsTextAppend(ps: seq<Part>, p: Part, boundary: string)
    ensures PartsText(ps + [p], boundary) == PartsText(ps, boundary) + PartsText([p], boundary)
    decreases |ps|
  {
    var chunk := PartsText([p], boundary);
    if ps == [] {
      assert ps + [p] == [p];
      assert "" + chunk == chunk;
    } else {
      PartsTextAppend(ps[1..], p, boundary);
      assert (ps + [p])[1..] == ps[1..] + [p];
      var t, more := PartText(ps[0]), PartsText(ps[1..], boundary);
      Regroup(CRLF, more, chunk);
      Regroup(t, CRLF + more, chunk);
      Regroup(CRLF, t + (CRLF + more), chunk);
      Regroup(boundary, CRLF + (t + (CRLF + more)), chunk);
      Regroup("--", boundary + (CRLF + (t + (CRLF + more))), chunk);
    }
  }

  lemma SameContentType(t: Tree, u: Tree)
    requires Fills(t, u) && (t.Multi? ==> t.boundary != "")
    ensures ContentType(t) == ContentType(u)
  {
  }

  /** The inner loop of `get_body` over a part's header. */
  method HeaderLines(header: Fields) returns (lines: string)
    ensures lines == FieldLines(Entries(header))
  {
    lines := "";
    var es := Entries(header);
    for i := 0 to |es|
      invariant lines == FieldLines(es[..i])
    {
      LinesAppend(es[..i], es[i]);
      assert es[..i + 1] == es[..i] + [es[i]];
      lines := lines + (es[i].0 + (": " + (es[i].1 + CRLF)));
    }
    assert es[..|es|] == es;
  }

  // ---- Sequences of calls on one multipart content

  datatype Call =
    | AskType
    | AskBody
    | PutData(parts: seq<DataSet>)
    | PutType(multipartType: string)

  /** What the parts of a `set_data` are. */
  ghost function TreesOf(parts: seq<DataSet>): (ps: seq<Part>)
    requires forall i :: 0 <= i < |parts| ==> parts[i].content.Acyclic()
    reads (set d | d in parts :: d.content)`Repr, (set d, o | d in parts && o in d.content.Repr :: o)
    ensures |ps| == |parts|
    ensures forall i :: 0 <= i < |parts| ==> ps[i] == Part(parts[i].header, parts[i].content.Now())
  {
    if parts == [] then []
    else
      var last := parts[|parts| - 1];
      TreesOf(parts[..|parts| - 1]) + [Part(last.header, last.content.Now())]
  }

  /** The contents that the calls bring in are valid, and none contains `c`. */
  ghost predicate Playable(c: Content, calls: seq<Call>)
    reads set k, j | 0 <= k < |calls| && calls[k].PutData? && 0 <= j < |calls[k].parts| :: calls[k].parts[j].content
    reads set k, j, o | 0 <= k < |calls| && calls[k].PutData? && 0 <= j < |calls[k].parts| &&
      o in calls[k].parts[j].content.Repr :: o
  {
    forall k, j :: 0 <= k < |calls| && calls[k].PutData? && 0 <= j < |calls[k].parts| ==>
      calls[k].parts[j].content.Valid() && c !in calls[k].parts[j].content.Repr
  }

  ghost function PutObjects(calls: seq<Call>): (objects: set<Content>)
    reads (set k, j | 0 <= k < |calls| && calls[k].PutData? && 0 <= j < |calls[k].parts| ::
      calls[k].parts[j].content)`Repr
    ensures forall k :: 0 <= k < |calls| && calls[k].PutData? ==> ObjectsOf(calls[k].parts) <= objects
  {
    if calls == [] then {}
    else
      var rest := PutObjects(calls[..|calls| - 1]);
      if calls[|calls| - 1].PutData? then rest + ObjectsOf(calls[|calls| - 1].parts) else rest
  }

  /** One call on `c`.  Contents below `c` stay sound. */
  method Perform(c: Content, call: Call) returns (answer: string)
    requires c.Valid() && c.isMultipart && (call.PutData? ==> PartsOf(c, call.parts))
    modifies c`raw, c`type_, c`Repr, c.Repr`data, c.Repr`boundary, c.Repr`generated
    ensures c.Valid() && c.Repr <= old(c.Repr) + (if call.PutData? then old(ObjectsOf(call.parts)) else {})
    ensures Grown(old(c.Repr) - {c})
    ensures forall o :: o in old(c.Repr) - {c} ==>
      o.Acyclic() && o.CacheGood() && (o.boundary == "" || Generated(o.boundary))
    ensures call.AskType? ==> Fills(old(c.Now()), c.Now()) && answer == ContentType(c.Now()) && c.Now().boundary != ""
    ensures call.AskBody? ==> Fills(old(c.Now()), c.Now()) && answer == Body(c.Now()) && Chosen(c.Now())
    ensures call.PutData? ==>
      c.Now() == Multi(old(c.Now()).mediaType, old(c.Now()).boundary, old(TreesOf(call.parts)))
    ensures call.PutType? ==>
      c.Now() == Multi(MediaType("multipart/" + call.multipartType, c.attributes),
        old(c.Now()).boundary, old(c.Now()).parts)
  {
    answer := "";
    match call
    case AskType =>
      answer := c.GetContentType();
      GrownNow(c);
    case AskBody =>
      answer := c.GetBody();
      GrownNow(c);
    case PutData(parts) =>
      c.SetData(parts);
      assert c.Now().parts == old(TreesOf(parts));
    case PutType(multipartType) =>
      c.SetMultipartType(multipartType);
  }

  ghost predicate PartsFill(was: seq<Part>, now: seq<Part>) {
    |was| == |now| && forall i :: 0 <= i < |was| ==>
      now[i].header == was[i].header && Fills(was[i].content, now[i].content)
  }

  /** What a call answers and leaves: the fresh rendering of the content as it is afterwards,
      which is what it was before but for boundaries not chosen then, or for what the call puts. */
  ghost predicate Follows(call: Call, t: Tree, answer: string, u: Tree, attributes: string) {
    && t.Multi? && u.Multi?
    && match call
      case AskType => Fills(t, u) && u.boundary != "" && answer == ContentType(u)
      case AskBody => Fills(t, u) && Chosen(u) && answer == Body(u)
      case PutData(parts) => u == t.(parts := u.parts)
      case PutType(multipartType) => u == t.(mediaType := MediaType("multipart/" + multipartType, attributes))
  }

  ghost predicate Trace(calls: seq<Call>, answers: seq<string>, trees: seq<Tree>, attributes: string) {
    |answers| == |calls| && |trees| == |calls| + 1 &&
    forall k :: 0 <= k < |calls| ==> Follows(calls[k], trees[k], answers[k], trees[k + 1], attributes)
  }

  /** A boundary once chosen is never replaced. */
  lemma {:induction false} BoundaryStays(
      calls: seq<Call>, answers: seq<string>, trees: seq<Tree>, attributes: string, i: nat, j: nat)
    requires Trace(calls, answers, trees, attributes) && i <= j <= |calls|
    requires trees[i].Multi? && trees[i].boundary != ""
    ensures trees[j].Multi? && trees[j].boundary == trees[i].boundary
    decreases j - i
  {
    if i < j {
      assert Follows(calls[i], trees[i], answers[i], trees[i + 1], attributes);
      BoundaryStays(calls, answers, trees, attributes, i + 1, j);
    }
  }

  predicate Asks(call: Call) {
    call.AskType? || call.AskBody?
  }

  /** Every type and every body ever answered has the same boundary. */
  lemma OneBoundary(
      calls: seq<Call>, answers: seq<string>, trees: seq<Tree>, attributes: string, i: nat, j: nat)
    requires Trace(calls, answers, trees, attributes) && i <= j < |calls| && Asks(calls[i]) && Asks(calls[j])
    ensures trees[i + 1].Multi? && trees[j + 1].Multi? && trees[i + 1].boundary == trees[j + 1].boundary != ""
  {
    assert Follows(calls[i], trees[i], answers[i], trees[i + 1], attributes);
    BoundaryStays(calls, answers, trees, attributes, i + 1, j + 1);
  }

  /** Until new data is put, a body is answered again and again as it was. */
  lemma {:induction false} BodyStays(
      calls: seq<Call>, answers: seq<string>, trees: seq<Tree>, attributes: string, i: nat, j: nat)
    requires Trace(calls, answers, trees, attributes) && i <= j < |calls| && calls[j].AskBody?
    requires trees[i].Multi? && Chosen(trees[i])
    requires forall k :: i <= k < j ==> !calls[k].PutData?
    ensures answers[j] == Body(trees[i])
    decreases j - i
  {
    assert Follows(calls[i], trees[i], answers[i], trees[i + 1], attributes);
    if Asks(calls[i]) {
      ChosenIsFinal(trees[i], trees[i + 1]);
    }
    if i < j {
      BodyStays(calls, answers, trees, attributes, i + 1, j);
    }
  }

  /** One call of a sequence; what later calls bring in stays valid, with at most some boundaries
      chosen in it. */
  method Turn(c: Content, calls: seq<Call>, i: nat) returns (answer: string)
    requires c.Valid() && c.isMultipart && Playable(c, calls) && i < |calls|
    modifies c`raw, c`type_, c`Repr, c.Repr`data, c.Repr`boundary, c.Repr`generated
    ensures c.Valid() && c.Repr <= old(c.Repr) + old(PutObjects(calls))
    ensures Follows(calls[i], old(c.Now()), answer, c.Now(), c.attributes)
    ensures calls[i].PutData? ==> c.Now().parts == old(TreesOf(calls[i].parts))
    ensures Playable(c, calls) && PutObjects(calls) == old(PutObjects(calls))
    ensures forall k, j :: 0 <= k < |calls| && calls[k].PutData? && 0 <= j < |calls[k].parts| ==>
      Fills(old(calls[k].parts[j].content.Now()), calls[k].parts[j].content.Now())
  {
    answer := Perform(c, calls[i]);
    forall k, j | 0 <= k < |calls| && calls[k].PutData? && 0 <= j < |calls[k].parts|
      ensures calls[k].parts[j].content.Valid() && c !in calls[k].parts[j].content.Repr
      ensures Fills(old(calls[k].parts[j].content.Now()), calls[k].parts[j].content.Now())
    {
      var x := calls[k].parts[j].content;
      assert c !in x.Repr && old(x.Valid());
      StaysValid(x);
      GrownNow(x);
    }
  }

  lemma PartsFillTransitive(was: seq<Part>, mid: seq<Part>, now: seq<Part>)
    requires PartsFill(was, mid) && PartsFill(mid, now)
    ensures PartsFill(was, now)
  {
    forall i | 0 <= i < |was| ensures Fills(was[i].content, now[i].content) {
      FillsTransitive(was[i].content, mid[i].content, now[i].content);
    }
  }

  lemma PartsFillReflexive(ps: seq<Part>)
    ensures PartsFill(ps, ps)
  {
    forall i | 0 <= i < |ps| ensures Fills(ps[i].content, ps[i].content) {
      FillsReflexive(ps[i].content);
    }
  }

  /** What each call brings in is what it was at first, with at most some boundaries chosen. */
  ghost predicate FilledFrom(c: Content, calls: seq<Call>, origin: seq<seq<Part>>)
    requires Playable(c, calls)
    reads set k, j | 0 <= k < |calls| && calls[k].PutData? && 0 <= j < |calls[k].parts| :: calls[k].parts[j].content
    reads set k, j, o | 0 <= k < |calls| && calls[k].PutData? && 0 <= j < |calls[k].parts| &&
      o in calls[k].parts[j].content.Repr :: o
  {
    |origin| == |calls| &&
    forall k :: 0 <= k < |calls| && calls[k].PutData? ==> PartsFill(origin[k], TreesOf(calls[k].parts))
  }

  /** `Turn`, as far back as the beginning of the sequence. */
  method TurnFrom(c: Content, calls: seq<Call>, i: nat, ghost origin: seq<seq<Part>>) returns (answer: string)
    requires c.Valid() && c.isMultipart && Playable(c, calls) && i < |calls| && FilledFrom(c, calls, origin)
    modifies c`raw, c`type_, c`Repr, c.Repr`data, c.Repr`boundary, c.Repr`generated
    ensures c.Valid() && c.Repr <= old(c.Repr) + old(PutObjects(calls))
    ensures Follows(calls[i], old(c.Now()), answer, c.Now(), c.attributes)
    ensures calls[i].PutData? ==> PartsFill(origin[i], c.Now().parts)
    ensures Playable(c, calls) && PutObjects(calls) == old(PutObjects(calls)) && FilledFrom(c, calls, origin)
  {
    answer := Turn(c, calls, i);
    forall k | 0 <= k < |calls| && calls[k].PutData? ensures PartsFill(origin[k], TreesOf(calls[k].parts)) {
      PartsFillTransitive(origin[k], old(TreesOf(calls[k].parts)), TreesOf(calls[k].parts));
    }
  }

  /** The calls so far. */
  ghost predicate TraceSoFar(
      calls: seq<Call>, origin: seq<seq<Part>>, answers: seq<string>, trees: seq<Tree>, attributes: string)
  {
    |answers| <= |calls| && |origin| == |calls| && |trees| == |answers| + 1 &&
    forall k :: 0 <= k < |answers| ==>
      && Follows(calls[k], trees[k], answers[k], trees[k + 1], attributes)
      && (calls[k].PutData? ==> PartsFill(origin[k], trees[k + 1].parts))
  }

  lemma TraceNext(
      calls: seq<Call>, origin: seq<seq<Part>>, answers: seq<string>, trees: seq<Tree>, attributes: string,
      answer: string, tree: Tree)
    requires TraceSoFar(calls, origin, answers, trees, attributes) && |answers| < |calls|
    requires Follows(calls[|answers|], trees[|answers|], answer, tree, attributes)
    requires calls[|answers|].PutData? ==> PartsFill(origin[|answers|], tree.parts)
    ensures TraceSoFar(calls, origin, answers + [answer], trees + [tree], attributes)
  {
  }

  method ReplayFrom(c: Content, calls: seq<Call>, ghost origin: seq<seq<Part>>)
      returns (answers: seq<string>, ghost trees: seq<Tree>)
    requires c.Valid() && c.isMultipart && Playable(c, calls) && FilledFrom(c, calls, origin)
    modifies c`raw, c`type_, c`Repr, c.Repr`data, c.Repr`boundary, c.Repr`generated
    modifies PutObjects(calls)`data, PutObjects(calls)`boundary, PutObjects(calls)`generated
    ensures c.Valid() && |answers| == |calls| && TraceSoFar(calls, origin, answers, trees, c.attributes)
    ensures trees[0] == old(c.Now()) && trees[|calls|] == c.Now()
  {
    answers, trees := [], [c.Now()];
    ghost var family := c.Repr + PutObjects(calls);
    for i := 0 to |calls|
      invariant c.Valid() && Playable(c, calls) && FilledFrom(c, calls, origin)
      invariant c.Repr <= family && PutObjects(calls) == old(PutObjects(calls))
      invariant |answers| == i && TraceSoFar(calls, origin, answers, trees, c.attributes)
      invariant trees[0] == old(c.Now()) && trees[i] == c.Now()
    {
      var answer := TurnFrom(c, calls, i, origin);
      TraceNext(calls, origin, answers, trees, c.attributes, answer, c.Now());
      answers, trees := answers + [answer], trees + [c.Now()];
    }
  }

  lemma OriginOf(c: Content, calls: seq<Call>) returns (origin: seq<seq<Part>>)
    requires Playable(c, calls)
    ensures FilledFrom(c, calls, origin)
    ensures forall k :: 0 <= k < |calls| && calls[k].PutData? ==> origin[k] == TreesOf(calls[k].parts)
  {
    origin := [];
    for i := 0 to |calls|
      invariant |origin| == i
      invariant forall k :: 0 <= k < i && calls[k].PutData? ==> origin[k] == TreesOf(calls[k].parts)
    {
      origin := origin + [if calls[i].PutData? then TreesOf(calls[i].parts) else []];
    }
    forall k | 0 <= k < |calls| && calls[k].PutData? ensures PartsFill(origin[k], TreesOf(calls[k].parts)) {
      PartsFillReflexive(origin[k]);
    }
  }

  /** Any sequence of calls on one multipart content, whose parts are not changed otherwise: each
      answer is a fresh rendering, whether cached or not, of the data put last. */
  method Replay(c: Content, calls: seq<Call>) returns (answers: seq<string>, ghost trees: seq<Tree>)
    requires c.Valid() && c.isMultipart && Playable(c, calls)
    modifies c`raw, c`type_, c`Repr, c.Repr`data, c.Repr`boundary, c.Repr`generated
    modifies PutObjects(calls)`data, PutObjects(calls)`boundary, PutObjects(calls)`generated
    ensures c.Valid() && Trace(calls, answers, trees, c.attributes)
    ensures trees[0] == old(c.Now()) && trees[|calls|] == c.Now()
    ensures forall k :: 0 <= k < |calls| && calls[k].PutData? ==>
      PartsFill(old(TreesOf(calls[k].parts)), trees[k + 1].parts)
  {
    ghost var origin := OriginOf(c, calls);
    answers, trees := ReplayFrom(c, calls, origin);
  }

  // ---- A part changed behind a cached body

  /** `set_body` on a part behind a cached body: the cached body is stale exactly when the text has
      become another one. */
  method SetTextBehind(m: Content, i: nat, text: string)
    requires m.Valid() && m.isMultipart && m.generated && i < |m.raw| && !m.raw[i].content.isMultipart
    modifies m.raw[i].content`text
    ensures m.Acyclic() && m.Repr == old(m.Repr) && m.data == old(Body(m.Now()))
    ensures Clean(old(m.Now())) && Clean(m.Now()) ==>
      (m.data != Body(m.Now()) <==> text != old(m.raw[i].content.text))
  {
    assert m.CacheGood();
    m.PartAcyclic(i);
    m.BelowValid(m.raw[i].content);
    m.raw[i].content.SetText(text);
    assert m.Acyclic();
    if Clean(old(m.Now())) && Clean(m.Now()) {
      StaleByText(m, i);
    }
  }

  /** The input on which a cached body is stale: render, replace the text of a part, render. */
  method RenderAround(m: Content, i: nat, text: string) returns (first: string, second: string, ghost was: Tree)
    requires m.Valid() && m.isMultipart && i < |m.raw| && !m.raw[i].content.isMultipart
    modifies m.Repr`data, m.Repr`boundary, m.Repr`generated, m.raw[i].content`text
    ensures Fills(old(m.Now()), was) && Chosen(was) && first == Body(was)
    ensures m.Acyclic() && second == first
    ensures Clean(was) && Clean(m.Now()) ==> (second != Body(m.Now()) <==> text != old(m.raw[i].content.text))
  {
    first := m.GetBody();
    GrownNow(m);
    was := m.Now();
    SetTextBehind(m, i, text);
    second := m.GetBody();
  }

  lemma NotBelow(o: Content, parts: seq<DataSet>)
    requires PartsOf(o, parts)
    ensures o !in ObjectsOf(parts)
  {
    if o in ObjectsOf(parts) {
      var i := PartWith(parts, o);
    }
  }

  /** No other part contains the `k`-th. */
  ghost predicate OnlyPart(outer: Content, k: nat)
    requires k < |outer.raw|
    reads outer, outer.Repr
  {
    forall j :: 0 <= j < |outer.raw| && outer.raw[j].content in outer.Repr ==>
      outer.raw[j].content == outer.raw[k].content || outer.raw[k].content !in outer.raw[j].content.Repr
  }

  twostate lemma SiblingsStay(outer: Content, new k: nat)
    requires old(outer.Valid()) && outer.raw == old(outer.raw) && k < |outer.raw| && old(OnlyPart(outer, k))
    requires outer.raw[k].content.Valid() && outer !in outer.raw[k].content.Repr
    requires forall o :: o in old(outer.Repr) && o != outer.raw[k].content ==>
      && o.type_ == old(o.type_) && o.attributes == old(o.attributes) && o.text == old(o.text) && o.raw == old(o.raw)
      && o.Repr == old(o.Repr) && o.boundary == old(o.boundary) && o.data == old(o.data)
      && o.generated == old(o.generated)
    ensures PartsOf(outer, outer.raw)
    ensures forall j :: 0 <= j < |outer.raw| && outer.raw[j].content != outer.raw[k].content ==>
      outer.raw[j].content.Now() == old(outer.PartNow(j)).content
  {
    assert old(outer.Ranked(outer));
    forall j | 0 <= j < |outer.raw|
      ensures outer.raw[j].content.Valid() && outer !in outer.raw[j].content.Repr
      ensures outer.raw[j].content != outer.raw[k].content ==>
        outer.raw[j].content.Now() == old(outer.PartNow(j)).content
    {
      if outer.raw[j].content != outer.raw[k].content {
        assert old(outer.Ranked(outer.raw[j].content));
        KeptAcyclic(outer.raw[j].content);
      }
    }
  }

  /** Where every part stays within `bound`, so does the whole. */
  lemma Within(parts: seq<DataSet>, bound: set<Content>)
    requires forall j :: 0 <= j < |parts| ==> parts[j].content.Repr <= bound
    ensures ObjectsOf(parts) <= bound
  {
    forall o | o in ObjectsOf(parts) ensures o in bound {
      var j := PartWith(parts, o);
    }
  }

  /** `set_data` on a part; the content above it does not know yet. */
  method ReplaceBelow(outer: Content, k: nat, parts: seq<DataSet>)
    requires outer.Valid() && outer.isMultipart && k < |outer.raw| && outer.raw[k].content.isMultipart
    requires PartsOf(outer, parts) && PartsOf(outer.raw[k].content, parts) && OnlyPart(outer, k)
    modifies outer.raw[k].content`raw, outer.raw[k].content`generated, outer.raw[k].content`Repr
    ensures outer.raw == old(outer.raw) && outer.generated == old(outer.generated) && PartsOf(outer, outer.raw)
    ensures {outer} + ObjectsOf(outer.raw) <= old(outer.Repr) + old(ObjectsOf(parts))
    ensures outer.raw[k].content.Now() ==
      Multi(old(outer.PartNow(k)).content.mediaType, outer.raw[k].content.boundary, old(TreesOf(parts)))
    ensures forall j :: 0 <= j < |outer.raw| && outer.raw[j].content != outer.raw[k].content ==>
      outer.raw[j].content.Now() == old(outer.PartNow(j)).content
  {
    var inner := outer.raw[k].content;
    assert outer.Ranked(outer);
    outer.PartAcyclic(k);
    outer.BelowValid(inner);
    NotBelow(outer, parts);
    inner.SetData(parts);
    assert inner.Now().parts == old(TreesOf(parts));
    SiblingsStay(outer, k);
    Within(outer.raw, old(outer.Repr) + old(ObjectsOf(parts)));
  }

  /** `set_data` on a part. */
  method ReplaceNested(outer: Content, k: nat, parts: seq<DataSet>)
    requires outer.Valid() && outer.isMultipart && k < |outer.raw| && outer.raw[k].content.isMultipart
    requires PartsOf(outer, parts) && PartsOf(outer.raw[k].content, parts) && OnlyPart(outer, k)
    modifies outer`Repr, outer.raw[k].content`raw, outer.raw[k].content`generated, outer.raw[k].content`Repr
    ensures outer.Acyclic() && (!outer.generated ==> outer.Valid())
    ensures outer.Repr <= old(outer.Repr) + old(ObjectsOf(parts))
    ensures outer.PartNow(k) == Part(outer.raw[k].header,
      Multi(old(outer.PartNow(k)).content.mediaType, outer.raw[k].content.boundary, old(TreesOf(parts))))
    ensures forall j :: 0 <= j < |outer.raw| && outer.raw[j].content != outer.raw[k].content ==>
      outer.PartNow(j) == old(outer.PartNow(j))
  {
    outer.PartAcyclic(k);
    ReplaceBelow(outer, k, parts);
    outer.Regroup();
  }

  /** `set_data` on a part behind a cached body: the cached body is stale exactly when the whole has
      become another tree. */
  method ReplaceBehind(outer: Content, k: nat, parts: seq<DataSet>)
    requires outer.Valid() && outer.isMultipart && k < |outer.raw| && outer.raw[k].content.isMultipart
    requires PartsOf(outer, parts) && PartsOf(outer.raw[k].content, parts) && OnlyPart(outer, k)
    requires outer.generated
    modifies outer`Repr, outer.raw[k].content`raw, outer.raw[k].content`generated, outer.raw[k].content`Repr
    ensures outer.Acyclic() && outer.generated && outer.data == old(outer.data)
    ensures outer.Repr <= old(outer.Repr) + old(ObjectsOf(parts))
    ensures Clean(old(outer.Now())) && Clean(outer.Now()) ==>
      (outer.data != Body(outer.Now()) <==> outer.Now() != old(outer.Now()))
  {
    outer.PartAcyclic(k);
    ReplaceNested(outer, k, parts);
    if Clean(old(outer.Now())) && Clean(outer.Now()) {
      StaleWhen(outer);
    }
  }

  /** `set_data` on a part, then `get_body`: without a cached body the whole is rendered as it is
      now; a cached one is answered as it was, even when it is stale. */
  method RenderAfterNested(outer: Content, k: nat, parts: seq<DataSet>) returns (body: string)
    requires outer.Valid() && outer.isMultipart && k < |outer.raw| && outer.raw[k].content.isMultipart
    requires PartsOf(outer, parts) && PartsOf(outer.raw[k].content, parts) && OnlyPart(outer, k)
    modifies outer`Repr, outer.raw[k].content`raw, outer.raw[k].content`generated, outer.raw[k].content`Repr
    modifies outer.Repr`data, outer.Repr`boundary, outer.Repr`generated
    modifies ObjectsOf(parts)`data, ObjectsOf(parts)`boundary, ObjectsOf(parts)`generated
    ensures outer.Acyclic()
    ensures !old(outer.generated) ==> outer.Valid() && body == Body(outer.Now())
    ensures old(outer.generated) ==> body == old(outer.data)
    ensures old(outer.generated) && Clean(old(outer.Now())) && Clean(outer.Now()) ==>
      (body != Body(outer.Now()) <==> outer.Now() != old(outer.Now()))
  {
    if outer.generated {
      ReplaceBehind(outer, k, parts);
      body := outer.GetBody();
    } else {
      outer.PartAcyclic(k);
      ReplaceNested(outer, k, parts);
      body := outer.GetBody();
    }
  }
}
