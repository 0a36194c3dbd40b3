/**
 What a shared cache entry is keyed on (cache/policy.rs, headers.rs) and what the upstream was sent
 (proxy.rs).  Text is modelled as its bytes, one character per byte.
 */
module CacheVariance {
  import opened Prelude
  import opened Splitting
  import opened Text

  type Octets = string
  type Name = string
  type Headers = map<Name, seq<Octets>>

  // ---------------------------------------------------------------- framing

  /** `n` in `k` bytes, most significant first; what does not fit is cut off. */
  function BigEndian(n: nat, k: nat): (r: Octets)
    ensures |r| == k
    decreases k
  {
    if k == 0 then "" else BigEndian(n / 256, k - 1) + [(n % 256) as char]
  }

  ghost function FromBigEndian(s: Octets): nat {
    if s == "" then 0 else FromBigEndian(s[..|s| - 1]) * 256 + s[|s| - 1] as nat
  }

  ghost function Pow256(k: nat): nat {
    if k == 0 then 1 else 256 * Pow256(k - 1)
  }

  lemma {:induction false} BigEndianRoundTrip(n: nat, k: nat)
    requires n < Pow256(k)
    ensures FromBigEndian(BigEndian(n, k)) == n
    decreases k
  {
    if k != 0 {
      BigEndianRoundTrip(n / 256, k - 1);
      assert BigEndian(n, k)[..k - 1] == BigEndian(n / 256, k - 1);
    }
  }

  /** A length written in eight bytes, then the value. */
  function Framed(value: Octets): Octets {
    BigEndian(|value|, 8) + value
  }

  function FramedAll(values: seq<Octets>): Octets {
    if values == [] then "" else Framed(values[0]) + FramedAll(values[1..])
  }

  /** Values whose lengths fit a machine word. */
  ghost predicate Sized(values: seq<Octets>) {
    forall i :: 0 <= i < |values| ==> |values[i]| <= U64_MAX
  }

  /** Reading frames back. */
  ghost function Unframed(s: Octets): Option<seq<Octets>>
    decreases |s|
  {
    if s == "" then Some([])
    else if |s| < 8 || |s| - 8 < FromBigEndian(s[..8]) then None
    else
      var n := FromBigEndian(s[..8]);
      var rest := Unframed(s[8 + n..]);
      if rest.None? then None else Some([s[8..8 + n]] + rest.value)
  }

  lemma WordHoldsLengths()
    ensures Pow256(8) == U64_MAX + 1
  {
    assert Pow256(4) == 0x1_0000_0000;
  }

  lemma UnframedFirst(v: Octets, tail: Octets)
    requires |v| <= U64_MAX
    ensures Unframed(Framed(v) + tail) == if Unframed(tail).None? then None else Some([v] + Unframed(tail).value)
  {
    WordHoldsLengths();
    BigEndianRoundTrip(|v|, 8);
    hide BigEndian, FromBigEndian;
    var s := Framed(v) + tail;
    assert s[..8] == BigEndian(|v|, 8) && s[8..8 + |v|] == v && s[8 + |v|..] == tail;
  }

  /** Framing loses nothing: the values, their number and their order can be read back. */
  lemma {:induction false} FramingRoundTrip(values: seq<Octets>)
    requires Sized(values)
    ensures Unframed(FramedAll(values)) == Some(values)
    decreases |values|
  {
    if values != [] {
      FramingRoundTrip(values[1..]);
      UnframedFirst(values[0], FramedAll(values[1..]));
      hide Unframed;
      assert values == [values[0]] + values[1..];
    }
  }

  lemma FramingIsInjective(a: seq<Octets>, b: seq<Octets>)
    requires Sized(a) && Sized(b)
    ensures FramedAll(a) == FramedAll(b) <==> a == b
  {
    FramingRoundTrip(a);
    FramingRoundTrip(b);
  }

  method Frame(out: Octets, value: Octets) returns (r: Octets)
    ensures r == out + Framed(value)
  {
    r := out + BigEndian(|value|, 8);
    r := r + value;
  }

  lemma FrameNext(before: Octets, parts: seq<Octets>)
    requires parts != []
    ensures before + FramedAll(parts) == before + Framed(parts[0]) + FramedAll(parts[1..])
  {
  }

  lemma FrameNone()
    ensures FramedAll([]) == ""
  {
  }

  lemma FrameOne(v: Octets)
    ensures "" + Framed(v) == FramedAll([v])
  {
    assert [v][1..] == [];
  }

  /** The primary key of a request, as it is hashed. */
  method KeyBytes(parts: seq<Octets>) returns (primary: Octets)
    ensures primary == FramedAll(parts)
  {
    hide FramedAll, Framed;
    primary := "";
    assert parts[0..] == parts;
    for i := 0 to |parts|
      invariant primary + FramedAll(parts[i..]) == FramedAll(parts)
    {
      FrameNext(primary, parts[i..]);
      assert parts[i..][1..] == parts[i + 1..];
      primary := Frame(primary, parts[i]);
    }
    FrameNone();
    assert parts[|parts|..] == [];
  }

  /** What a primary key is made of. */
  datatype Keyed = Keyed(namespace: Octets, route: Octets, upstream: Octets, host: Octets, method_: Octets, uri: Octets)

  function Components(k: Keyed): seq<Octets> {
    [k.namespace, k.route, k.upstream, LowerAscii(k.host), k.method_, k.uri]
  }

  /** Two requests share a primary key only if they agree on every component; hosts are compared without case. */
  lemma EqualKeysMeanEqualRequests(a: Keyed, b: Keyed)
    requires Sized(Components(a)) && Sized(Components(b))
    ensures FramedAll(Components(a)) == FramedAll(Components(b)) <==> a.(host := LowerAscii(a.host)) == b.(host := LowerAscii(b.host))
  {
    hide FramedAll;
    FramingIsInjective(Components(a), Components(b));
    if Components(a) == Components(b) {
      assert Components(a)[0] == Components(b)[0] && Components(a)[1] == Components(b)[1] && Components(a)[2] == Components(b)[2];
      assert Components(a)[3] == Components(b)[3] && Components(a)[4] == Components(b)[4] && Components(a)[5] == Components(b)[5];
    }
  }

  // ---------------------------------------------------------------- the header plan

  datatype Addition = Addition(name: Name, value: Octets)

  datatype Plan = Plan(additions: seq<Addition>, removals: set<Name>)

  ghost predicate Distinct(additions: seq<Addition>) {
    forall i, j :: 0 <= i < j < |additions| ==> additions[i].name != additions[j].name
  }

  /** One value per added name, and every added name is removed first. */
  ghost predicate WellFormed(p: Plan) {
    && Distinct(p.additions)
    && (forall i :: 0 <= i < |p.additions| ==> p.additions[i].name in p.removals)
  }

  /** The value the plan adds under a name. */
  function Added(additions: seq<Addition>, name: Name): Option<Octets> {
    if additions == [] then None
    else if additions[0].name == name then Some(additions[0].value)
    else Added(additions[1..], name)
  }

  function Without(additions: seq<Addition>, name: Name): (r: seq<Addition>)
    ensures forall i :: 0 <= i < |r| ==> r[i] in additions && r[i].name != name
  {
    if additions == [] then []
    else (if additions[0].name == name then [] else [additions[0]]) + Without(additions[1..], name)
  }

  lemma {:induction false} AddedAppend(a: seq<Addition>, b: seq<Addition>, name: Name)
    ensures Added(a + b, name) == if Added(a, name).Some? then Added(a, name) else Added(b, name)
  {
    if a == [] {
      assert a + b == b;
    } else {
      AddedAppend(a[1..], b, name);
      assert (a + b)[1..] == a[1..] + b;
    }
  }

  lemma {:induction false} WithoutKeepsOthers(additions: seq<Addition>, name: Name, other: Name)
    ensures Added(Without(additions, name), other) == if other == name then None else Added(additions, other)
  {
    if additions != [] {
      WithoutKeepsOthers(additions[1..], name, other);
      AddedAppend(if additions[0].name == name then [] else [additions[0]], Without(additions[1..], name), other);
    }
  }

  lemma {:induction false} WithoutStaysDistinct(additions: seq<Addition>, name: Name)
    requires Distinct(additions)
    ensures Distinct(Without(additions, name))
  {
    if additions != [] {
      WithoutStaysDistinct(additions[1..], name);
      DistinctInFront(additions[0], Without(additions[1..], name), additions[1..]);
      hide Distinct;
      var rest := Without(additions[1..], name);
      assert [] + rest == rest;
    }
  }

  lemma DistinctInFront(first: Addition, rest: seq<Addition>, all: seq<Addition>)
    requires Distinct(rest) && Distinct([first] + all) && forall i :: 0 <= i < |rest| ==> rest[i] in all
    ensures Distinct([first] + rest)
  {
    var r := [first] + rest;
    forall i, j | 0 <= i < j < |r|
      ensures r[i].name != r[j].name
    {
      assert r[j] == rest[j - 1];
      if i == 0 {
        var k :| 0 <= k < |all| && all[k] == rest[j - 1];
        assert ([first] + all)[0].name != ([first] + all)[k + 1].name;
      } else {
        assert r[i] == rest[i - 1];
      }
    }
  }

  class HeaderPlan {
    var set_: seq<Addition>
    var remove: set<Name>

    ghost function View(): Plan
      reads this
    {
      Plan(set_, remove)
    }

    constructor ()
      ensures View() == Plan([], {}) && WellFormed(View())
    {
      set_, remove := [], {};
    }

    /** Afterwards the plan adds this value under the name and drops the client's; other names are as before. */
    method Set(name: Name, value: Octets)
      requires WellFormed(View())
      modifies this
      ensures WellFormed(View())
      ensures View().removals == old(View().removals) + {LowerAscii(name)}
      ensures forall n :: Added(View().additions, n) == if n == LowerAscii(name) then Some(value) else Added(old(View().additions), n)
    {
      var lower := LowerAscii(name);
      remove := remove + {lower};
      ghost var before := set_;
      WithoutStaysDistinct(set_, lower);
      set_ := Without(set_, lower);
      set_ := set_ + [Addition(lower, value)];
      assert forall a :: a in before ==> a.name in remove;
      forall n
        ensures Added(set_, n) == if n == lower then Some(value) else Added(before, n)
      {
        WithoutKeepsOthers(before, lower, n);
        AddedAppend(Without(before, lower), [Addition(lower, value)], n);
      }
    }

    /** Drop the client's header; a value the plan itself adds stays. */
    method Strip(name: Name)
      requires WellFormed(View())
      modifies this`remove
      ensures WellFormed(View())
      ensures View() == old(View()).(removals := old(View().removals) + {LowerAscii(name)})
    {
      remove := remove + {LowerAscii(name)};
    }
  }

  // ---------------------------------------------------------------- what the upstream is sent

  const HOST: Name := "host"

  datatype Forwarding = Forwarding(allowlist: bool, preserveHost: bool, address: Octets)

  function ValuesOf(h: Headers, name: Name): seq<Octets> {
    if name in h then h[name] else []
  }

  function Swept(h: Headers, forwardable: Name -> bool): Headers {
    map n | n in h && forwardable(n) :: h[n]
  }

  function Inserted(h: Headers, additions: seq<Addition>): Headers
    decreases additions
  {
    if additions == [] then h else Inserted(h[additions[0].name := [additions[0].value]], additions[1..])
  }

  function Sent(h: Headers, f: Forwarding, forwardable: Name -> bool, p: Plan): Headers {
    var hosted := if f.preserveHost then h else h[HOST := [f.address]];
    var swept := if f.allowlist then Swept(hosted, forwardable) else hosted;
    Inserted(swept - p.removals, p.additions)
  }

  method UpstreamRequestFilter(h: Headers, f: Forwarding, forwardable: Name -> bool, p: Plan) returns (upstream: Headers)
    ensures upstream == Sent(h, f, forwardable, p)
  {
    upstream := h;
    if !f.preserveHost {
      upstream := upstream[HOST := [f.address]];
    }
    if f.allowlist {
      var doomed := set n | n in upstream && !forwardable(n);
      upstream := RemoveAll(upstream, doomed);
      assert upstream == Swept(if f.preserveHost then h else h[HOST := [f.address]], forwardable);
    }
    upstream := RemoveAll(upstream, p.removals);
    upstream := InsertAll(upstream, p.additions);
  }

  method RemoveAll(h: Headers, names: set<Name>) returns (r: Headers)
    ensures r == h - names
  {
    r := h;
    var left := names;
    while left != {}
      invariant left <= names && r == h - (names - left)
      decreases |left|
    {
      var n :| n in left;
      left := left - {n};
      r := r - {n};
    }
  }

  method InsertAll(h: Headers, additions: seq<Addition>) returns (r: Headers)
    ensures r == Inserted(h, additions)
  {
    r := h;
    assert additions[0..] == additions;
    for i := 0 to |additions|
      invariant Inserted(r, additions[i..]) == Inserted(h, additions)
    {
      assert additions[i..][1..] == additions[i + 1..];
      r := r[additions[i].name := [additions[i].value]];
    }
  }

  // ---------------------------------------------------------------- variance

  predicate Visible(c: char) {
    ' ' <= c <= '~' || c == '\t'
  }

  /** A token character of section 5.6.2 of RFC 9110. */
  predicate TokenChar(c: char) {
    'a' <= c <= 'z' || 'A' <= c <= 'Z' || '0' <= c <= '9' || c in "!#$%&'*+-.^_`|~"
  }

  const MAX_NAME: nat := 0xFFFF

  function HeaderName(s: string): Option<Name> {
    if s != "" && |s| <= MAX_NAME && (forall i :: 0 <= i < |s| ==> TokenChar(s[i])) then Some(LowerAscii(s)) else None
  }

  /** The fields named in one piece of a `Vary` value; none if the piece makes the response unusable. */
  function FieldIn(piece: string): Option<set<Name>> {
    var t := Trim(piece);
    if t == "" then Some({})
    else if t == "*" || HeaderName(t).None? then None
    else Some({HeaderName(t).value})
  }

  function Union(a: Option<set<Name>>, b: Option<set<Name>>): Option<set<Name>> {
    if a.None? || b.None? then None else Some(a.value + b.value)
  }

  function FieldsIn(pieces: seq<string>): Option<set<Name>> {
    if pieces == [] then Some({}) else Union(FieldsIn(pieces[..|pieces| - 1]), FieldIn(pieces[|pieces| - 1]))
  }

  function VaryFields(vary: seq<Octets>): Option<set<Name>> {
    if vary == [] then Some({})
    else
      var last := vary[|vary| - 1];
      var own := if forall i :: 0 <= i < |last| ==> Visible(last[i]) then FieldsIn(Split(last, ',')) else None;
      Union(VaryFields(vary[..|vary| - 1]), own)
  }

  /** What the cache takes the values of a field to be. */
  function Selected(h: Headers, p: Plan, forwardable: Name -> bool, name: Name): seq<Octets> {
    var added := Added(p.additions, name);
    if added.Some? then [added.value]
    else if name !in p.removals && forwardable(name) then ValuesOf(h, name)
    else []
  }

  /** The fields and framed values that are hashed into the variance key; none without fields. */
  function Variance(vary: seq<Octets>, h: Headers, p: Plan, forwardable: Name -> bool): Option<map<Name, Octets>> {
    var fields := VaryFields(vary);
    if fields.None? || fields.value == {} then None
    else Some(FramedFields(fields.value, h, p, forwardable))
  }

  /** The values hashed per field. */
  function FramedFields(fields: set<Name>, h: Headers, p: Plan, forwardable: Name -> bool): map<Name, Octets> {
    map n | n in fields :: FramedAll(Selected(h, p, forwardable, n))
  }

  method ComputeVariance(vary: seq<Octets>, h: Headers, p: Plan, forwardable: Name -> bool) returns (r: Option<map<Name, Octets>>)
    ensures r == Variance(vary, h, p, forwardable)
  {
    hide VaryFields, FramedFields;
    var fields := ParseVary(vary);
    if fields.None? {
      return None;
    }
    var builder := FrameFields(fields.value, h, p, forwardable);
    r := if builder == map[] then None else Some(builder);
    NoFields(fields.value, h, p, forwardable);
  }

  lemma NoFields(fields: set<Name>, h: Headers, p: Plan, forwardable: Name -> bool)
    ensures FramedFields(fields, h, p, forwardable) == map[] <==> fields == {}
  {
    hide FramedAll, Selected;
    assert FramedFields(fields, h, p, forwardable).Keys == fields;
  }

  method FrameFields(fields: set<Name>, h: Headers, p: Plan, forwardable: Name -> bool) returns (builder: map<Name, Octets>)
    ensures builder == FramedFields(fields, h, p, forwardable)
  {
    hide Selected, FramedAll;
    builder := map[];
    var left := fields;
    while left != {}
      invariant left <= fields && builder.Keys == fields - left
      invariant forall n :: n in builder ==> builder[n] == FramedAll(Selected(h, p, forwardable, n))
      decreases |left|
    {
      var name :| name in left;
      left := left - {name};
      var bytes := SelectedBytes(h, p, forwardable, name);
      builder := builder[name := bytes];
    }
  }

  method SelectedBytes(h: Headers, p: Plan, forwardable: Name -> bool, name: Name) returns (bytes: Octets)
    ensures bytes == FramedAll(Selected(h, p, forwardable, name))
  {
    hide FramedAll, Framed, Added;
    bytes := "";
    var added := Find(p.additions, name);
    if added.Some? {
      bytes := Frame(bytes, added.value);
      FrameOne(added.value);
    } else if name !in p.removals && forwardable(name) {
      bytes := KeyBytes(ValuesOf(h, name));
    } else {
      FrameNone();
    }
  }

  method Find(additions: seq<Addition>, name: Name) returns (r: Option<Octets>)
    ensures r == Added(additions, name)
  {
    for i := 0 to |additions|
      invariant Added(additions, name) == Added(additions[i..], name)
    {
      if additions[i].name == name {
        return Some(additions[i].value);
      }
      assert additions[i..][1..] == additions[i + 1..];
    }
    r := None;
  }

  /** Parsing `Vary` in the program's own loops. */
  method ParseVary(vary: seq<Octets>) returns (r: Option<set<Name>>)
    ensures r == VaryFields(vary)
  {
    hide FieldsIn;
    var fields: set<Name> := {};
    assert vary[..0] == [];
    for i := 0 to |vary|
      invariant VaryFields(vary[..i]) == Some(fields)
    {
      assert vary[..i + 1][..i] == vary[..i];
      var own: Option<set<Name>> := None;
      if forall k :: 0 <= k < |vary[i]| ==> Visible(vary[i][k]) {
        own := ParsePieces(Split(vary[i], ','));
      }
      if own.None? {
        VaryStaysUnusable(vary, i + 1);
        return None;
      }
      fields := fields + own.value;
    }
    assert vary[..|vary|] == vary;
    r := Some(fields);
  }

  method ParsePieces(pieces: seq<string>) returns (r: Option<set<Name>>)
    ensures r == FieldsIn(pieces)
  {
    var fields: set<Name> := {};
    assert pieces[..0] == [];
    for j := 0 to |pieces|
      invariant FieldsIn(pieces[..j]) == Some(fields)
    {
      assert pieces[..j + 1][..j] == pieces[..j];
      var name := Trim(pieces[j]);
      if name != "" {
        if name == "*" || HeaderName(name).None? {
          FieldsStayUnusable(pieces, j + 1);
          return None;
        }
        fields := fields + {HeaderName(name).value};
      } else {
        assert fields + {} == fields;
      }
    }
    assert pieces[..|pieces|] == pieces;
    r := Some(fields);
  }

  lemma {:induction false} FieldsStayUnusable(pieces: seq<string>, j: nat)
    requires j <= |pieces| && FieldsIn(pieces[..j]).None?
    ensures FieldsIn(pieces).None?
    decreases |pieces|
  {
    if j == |pieces| {
      assert pieces[..j] == pieces;
    } else {
      assert pieces[..|pieces| - 1][..j] == pieces[..j];
      FieldsStayUnusable(pieces[..|pieces| - 1], j);
    }
  }

  lemma {:induction false} VaryStaysUnusable(vary: seq<Octets>, i: nat)
    requires i <= |vary| && VaryFields(vary[..i]).None?
    ensures VaryFields(vary).None?
    decreases |vary|
  {
    if i == |vary| {
      assert vary[..i] == vary;
    } else {
      assert vary[..|vary| - 1][..i] == vary[..i];
      VaryStaysUnusable(vary[..|vary| - 1], i);
    }
  }

  // ---------------------------------------------------------------- the key matches what was sent

  lemma {:induction false} InsertedValues(h: Headers, additions: seq<Addition>, name: Name)
    requires Distinct(additions)
    ensures ValuesOf(Inserted(h, additions), name) ==
      if Added(additions, name).Some? then [Added(additions, name).value] else ValuesOf(h, name)
    decreases |additions|
  {
    if additions != [] {
      InsertedValues(h[additions[0].name := [additions[0].value]], additions[1..], name);
      if additions[0].name == name {
        NotAdded(additions[1..], name);
      }
    }
  }

  lemma {:induction false} NotAdded(additions: seq<Addition>, name: Name)
    requires forall i :: 0 <= i < |additions| ==> additions[i].name != name
    ensures Added(additions, name).None?
  {
    if additions != [] {
      NotAdded(additions[1..], name);
    }
  }

  /** A field may reach the upstream: everything passes through, or the allowlist has it. */
  function Passes(f: Forwarding, forwardable: Name -> bool): Name -> bool {
    n => !f.allowlist || forwardable(n)
  }

  /** The upstream's `host` is the client's, or is settled by the plan or the allowlist. */
  predicate HostSettled(f: Forwarding, forwardable: Name -> bool, p: Plan) {
    f.preserveHost || Added(p.additions, HOST).Some? || HOST in p.removals || (f.allowlist && !forwardable(HOST))
  }

  /** Where the values a field is keyed on are those the upstream is sent. */
  predicate KeyedRight(h: Headers, f: Forwarding, forwardable: Name -> bool, p: Plan, name: Name) {
    name != HOST || HostSettled(f, forwardable, p) || ValuesOf(h, HOST) == [f.address]
  }

  /**
   A field is keyed on exactly the values the upstream is sent, except for `host` where the gateway puts
   the target's address in its place: neither preserved, nor set, nor dropped, nor sent right by the client.
   */
  lemma KeyedAsSent(h: Headers, f: Forwarding, forwardable: Name -> bool, p: Plan, name: Name)
    requires WellFormed(p)
    ensures Selected(h, p, Passes(f, forwardable), name) == ValuesOf(Sent(h, f, forwardable, p), name)
      <==> KeyedRight(h, f, forwardable, p, name)
  {
    var hosted := if f.preserveHost then h else h[HOST := [f.address]];
    var swept := if f.allowlist then Swept(hosted, forwardable) else hosted;
    InsertedValues(swept - p.removals, p.additions, name);
  }

  /** One request as the gateway handles it: what the client sent and what the plan makes of it. */
  datatype Request = Request(headers: Headers, plan: Plan)

  ghost predicate AllSized(h: Headers, p: Plan) {
    && (forall n :: n in h ==> Sized(h[n]))
    && (forall i :: 0 <= i < |p.additions| ==> |p.additions[i].value| <= U64_MAX)
  }

  lemma {:induction false} AddedIsSized(additions: seq<Addition>, name: Name)
    requires forall i :: 0 <= i < |additions| ==> |additions[i].value| <= U64_MAX
    ensures Added(additions, name).Some? ==> |Added(additions, name).value| <= U64_MAX
  {
    if additions != [] {
      AddedIsSized(additions[1..], name);
    }
  }

  /**
   Two requests for the same stored response have the same variance key exactly when the upstream would
   be sent the same values, in the same order, for every field the response varies on (section 4.1 of
   RFC 9111), as long as each of them is keyed on what is sent.
   */
  lemma SameVarianceMeansSameSelectedHeaders(vary: seq<Octets>, f: Forwarding, forwardable: Name -> bool, a: Request, b: Request)
    requires VaryFields(vary).Some?
    requires HOST in VaryFields(vary).value ==>
      KeyedRight(a.headers, f, forwardable, a.plan, HOST) && KeyedRight(b.headers, f, forwardable, b.plan, HOST)
    requires WellFormed(a.plan) && WellFormed(b.plan)
    requires AllSized(a.headers, a.plan) && AllSized(b.headers, b.plan)
    ensures Variance(vary, a.headers, a.plan, Passes(f, forwardable)) == Variance(vary, b.headers, b.plan, Passes(f, forwardable))
      <==> forall n :: n in VaryFields(vary).value ==>
             ValuesOf(Sent(a.headers, f, forwardable, a.plan), n) == ValuesOf(Sent(b.headers, f, forwardable, b.plan), n)
  {
    hide VaryFields, Sent, FramedAll, WellFormed, AllSized, Selected, Passes, ValuesOf, HostSettled;
    var passes := Passes(f, forwardable);
    forall n | n in VaryFields(vary).value
      ensures FramedAll(Selected(a.headers, a.plan, passes, n)) == FramedAll(Selected(b.headers, b.plan, passes, n))
        <==> ValuesOf(Sent(a.headers, f, forwardable, a.plan), n) == ValuesOf(Sent(b.headers, f, forwardable, b.plan), n)
    {
      KeyedApart(f, forwardable, a, b, n);
    }
    SameVarianceByField(vary, passes, a, b);
  }

  lemma KeyedApart(f: Forwarding, forwardable: Name -> bool, a: Request, b: Request, n: Name)
    requires KeyedRight(a.headers, f, forwardable, a.plan, n) && KeyedRight(b.headers, f, forwardable, b.plan, n)
    requires WellFormed(a.plan) && WellFormed(b.plan)
    requires AllSized(a.headers, a.plan) && AllSized(b.headers, b.plan)
    ensures FramedAll(Selected(a.headers, a.plan, Passes(f, forwardable), n)) == FramedAll(Selected(b.headers, b.plan, Passes(f, forwardable), n))
      <==> ValuesOf(Sent(a.headers, f, forwardable, a.plan), n) == ValuesOf(Sent(b.headers, f, forwardable, b.plan), n)
  {
    hide FramedAll, Sent, Added, Passes, KeyedRight;
    KeyedAsSent(a.headers, f, forwardable, a.plan, n);
    KeyedAsSent(b.headers, f, forwardable, b.plan, n);
    AddedIsSized(a.plan.additions, n);
    AddedIsSized(b.plan.additions, n);
    FramingIsInjective(Selected(a.headers, a.plan, Passes(f, forwardable), n), Selected(b.headers, b.plan, Passes(f, forwardable), n));
  }

  lemma SameVarianceByField(vary: seq<Octets>, passes: Name -> bool, a: Request, b: Request)
    requires VaryFields(vary).Some?
    ensures Variance(vary, a.headers, a.plan, passes) == Variance(vary, b.headers, b.plan, passes) <==>
      forall n :: n in VaryFields(vary).value ==>
        FramedAll(Selected(a.headers, a.plan, passes, n)) == FramedAll(Selected(b.headers, b.plan, passes, n))
  {
    hide VaryFields, FramedAll, Selected;
    var fields := VaryFields(vary).value;
    var ka, kb := Variance(vary, a.headers, a.plan, passes), Variance(vary, b.headers, b.plan, passes);
    if fields != {} && ka == kb {
      forall n | n in fields
        ensures FramedAll(Selected(a.headers, a.plan, passes, n)) == FramedAll(Selected(b.headers, b.plan, passes, n))
      {
        assert ka.value[n] == kb.value[n];
      }
    }
    if forall n :: n in fields ==> FramedAll(Selected(a.headers, a.plan, passes, n)) == FramedAll(Selected(b.headers, b.plan, passes, n)) {
      assert fields != {} ==> ka.value == kb.value;
    }
  }

  /**
   The exception, for any two requests whose `host` is not settled: the upstream is sent the target's
   address for both, but the keys differ whenever the clients' own hosts do.
   */
  lemma HostIsKeyedAsTheClientSentIt(f: Forwarding, forwardable: Name -> bool, a: Request, b: Request)
    requires WellFormed(a.plan) && WellFormed(b.plan)
    requires !HostSettled(f, forwardable, a.plan) && !HostSettled(f, forwardable, b.plan)
    ensures ValuesOf(Sent(a.headers, f, forwardable, a.plan), HOST) == [f.address] == ValuesOf(Sent(b.headers, f, forwardable, b.plan), HOST)
    ensures Selected(a.headers, a.plan, Passes(f, forwardable), HOST) == Selected(b.headers, b.plan, Passes(f, forwardable), HOST)
      <==> ValuesOf(a.headers, HOST) == ValuesOf(b.headers, HOST)
  {
    SentTheAddress(f, forwardable, a);
    SentTheAddress(f, forwardable, b);
  }

  lemma SentTheAddress(f: Forwarding, forwardable: Name -> bool, a: Request)
    requires WellFormed(a.plan) && !HostSettled(f, forwardable, a.plan)
    ensures ValuesOf(Sent(a.headers, f, forwardable, a.plan), HOST) == [f.address]
    ensures Selected(a.headers, a.plan, Passes(f, forwardable), HOST) == ValuesOf(a.headers, HOST)
  {
    var right := a.headers[HOST := [f.address]];
    KeyedAsSent(right, f, forwardable, a.plan, HOST);
    assert right[HOST := [f.address]] == a.headers[HOST := [f.address]];
  }
}
