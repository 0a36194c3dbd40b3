/** Which fields a response varies on, stated on the characters of its `Vary` values (cache/policy.rs). */
module VaryNames {
  import opened Prelude
  import opened Splitting
  import opened Text
  import opened Trimming
  import opened CacheVariance

  /** A token (section 5.6.2 of RFC 9110) that can be a field name, by code point. */
  ghost predicate IsToken(w: string) {
    && w != "" && |w| <= 65535
    && forall i :: 0 <= i < |w| ==>
         var n := w[i] as int;
         || 0x30 <= n <= 0x39 || 0x41 <= n <= 0x5A || 0x5E <= n <= 0x7A
         || n == 0x21 || 0x23 <= n <= 0x27 || n == 0x2A || n == 0x2B || n == 0x2D || n == 0x2E || n == 0x7C || n == 0x7E
  }

  lemma TokenIs(w: string)
    ensures IsToken(w) <==> HeaderName(w).Some?
    ensures IsToken(w) ==> HeaderName(w) == Some(LowerAscii(w))
  {
    forall i | 0 <= i < |w|
      ensures TokenChar(w[i]) <==> var n := w[i] as int;
                || 0x30 <= n <= 0x39 || 0x41 <= n <= 0x5A || 0x5E <= n <= 0x7A
                || n == 0x21 || 0x23 <= n <= 0x27 || n == 0x2A || n == 0x2B || n == 0x2D || n == 0x2E || n == 0x7C || n == 0x7E
    {
      TokenCharIs(w[i]);
    }
  }

  lemma TokenCharIs(c: char)
    ensures TokenChar(c) <==> var n := c as int;
              || 0x30 <= n <= 0x39 || 0x41 <= n <= 0x5A || 0x5E <= n <= 0x7A
              || n == 0x21 || 0x23 <= n <= 0x27 || n == 0x2A || n == 0x2B || n == 0x2D || n == 0x2E || n == 0x7C || n == 0x7E
  {
    var marks := "!#$%&'*+-.^_`|~";
    assert marks[0] == '!' && marks[1] == '#' && marks[2] == '$' && marks[3] == '%' && marks[4] == '&';
    assert marks[5] == '\'' && marks[6] == '*' && marks[7] == '+' && marks[8] == '-' && marks[9] == '.';
    assert marks[10] == '^' && marks[11] == '_' && marks[12] == '`' && marks[13] == '|' && marks[14] == '~';
  }

  /** The piece names this field, white space around it and the case of its letters aside. */
  ghost predicate NamesField(piece: string, name: Name) {
    exists w :: Bare(piece, w) && IsToken(w) && w != "*" && name == LowerAscii(w)
  }

  /** The characters a `Vary` value may hold: printable ASCII and the tab. */
  ghost predicate Readable(value: Octets) {
    forall i :: 0 <= i < |value| ==> 0x20 <= value[i] as int < 0x7F || value[i] as int == 0x09
  }

  ghost predicate UsablePiece(piece: string) {
    AllSpace(piece) || exists name :: NamesField(piece, name)
  }

  lemma FieldInIs(piece: string)
    ensures FieldIn(piece).Some? <==> UsablePiece(piece)
    ensures FieldIn(piece).Some? ==> forall n :: n in FieldIn(piece).value <==> NamesField(piece, n)
  {
    var t := Trim(piece);
    BlankIs(piece);
    TrimIsBare(piece);
    TokenIs(t);
    hide AllSpace, Bare, Trim, HeaderName, IsToken;
    forall name
      ensures NamesField(piece, name) <==> IsToken(t) && t != "*" && name == LowerAscii(t)
    {
      if NamesField(piece, name) {
        var w :| Bare(piece, w) && IsToken(w) && w != "*" && name == LowerAscii(w);
        BareIsTrim(piece, w);
      }
    }
    NothingIsNoToken();
    if IsToken(t) && t != "*" {
      assert NamesField(piece, LowerAscii(t));
    }
  }

  lemma NothingIsNoToken()
    ensures !IsToken("")
  {
  }

  ghost predicate UsablePieces(pieces: seq<string>) {
    forall i :: 0 <= i < |pieces| ==> UsablePiece(pieces[i])
  }

  ghost predicate NamedIn(pieces: seq<string>, n: Name) {
    exists i :: 0 <= i < |pieces| && NamesField(pieces[i], n)
  }

  lemma {:induction false} FieldsInIs(pieces: seq<string>)
    ensures FieldsIn(pieces).Some? <==> UsablePieces(pieces)
    ensures FieldsIn(pieces).Some? ==> forall n :: n in FieldsIn(pieces).value <==> NamedIn(pieces, n)
  {
    hide FieldIn, UsablePiece, NamesField;
    if pieces != [] {
      var k := |pieces| - 1;
      FieldsInIs(pieces[..k]);
      FieldInIs(pieces[k]);
      forall n
        ensures NamedIn(pieces, n) <==> NamedIn(pieces[..k], n) || NamesField(pieces[k], n)
      {
        assert forall i :: 0 <= i < k ==> pieces[..k][i] == pieces[i];
      }
      assert UsablePieces(pieces) <==> UsablePieces(pieces[..k]) && UsablePiece(pieces[k]) by {
        assert forall i :: 0 <= i < k ==> pieces[..k][i] == pieces[i];
      }
    }
  }

  ghost predicate Usable(value: Octets) {
    Readable(value) && UsablePieces(Split(value, ','))
  }

  ghost predicate AllUsable(vary: seq<Octets>) {
    forall i :: 0 <= i < |vary| ==> Usable(vary[i])
  }

  ghost predicate VariesOn(vary: seq<Octets>, n: Name) {
    exists i :: 0 <= i < |vary| && NamedIn(Split(vary[i], ','), n)
  }

  lemma ReadableIs(value: Octets)
    ensures Readable(value) <==> forall i :: 0 <= i < |value| ==> Visible(value[i])
  {
    forall i | 0 <= i < |value|
      ensures Visible(value[i]) <==> 0x20 <= value[i] as int < 0x7F || value[i] as int == 0x09
    {
    }
  }

  /**
   What a response varies on.  Its `Vary` values are usable exactly when each is printable and each piece
   between commas is blank or names a field; a `*` makes them unusable, and so does any other text.  The
   fields are then those named, in small letters.
   */
  lemma {:induction false} VaryFieldsAre(vary: seq<Octets>)
    ensures VaryFields(vary).Some? <==> AllUsable(vary)
    ensures VaryFields(vary).Some? ==> forall n :: n in VaryFields(vary).value <==> VariesOn(vary, n)
  {
    hide FieldsIn, UsablePieces, NamedIn, Readable, Visible, Split;
    if vary != [] {
      var k := |vary| - 1;
      var pieces := Split(vary[k], ',');
      VaryFieldsAre(vary[..k]);
      ReadableIs(vary[k]);
      FieldsInIs(pieces);
      forall n
        ensures VariesOn(vary, n) <==> VariesOn(vary[..k], n) || NamedIn(pieces, n)
      {
        assert forall i :: 0 <= i < k ==> vary[..k][i] == vary[i];
      }
      assert AllUsable(vary) <==> AllUsable(vary[..k]) && Usable(vary[k]) by {
        assert forall i :: 0 <= i < k ==> vary[..k][i] == vary[i];
      }
    }
  }

  /**
   The variance key.  There is one exactly when the `Vary` values are usable and name a field at all; it
   has an entry for each field named and no other, from which the field's values can be read back.
   */
  lemma VarianceIs(vary: seq<Octets>, h: Headers, p: Plan, forwardable: Name -> bool)
    ensures var key := Variance(vary, h, p, forwardable);
            && (key.Some? <==> AllUsable(vary) && exists n :: VariesOn(vary, n))
            && (key.Some? ==> forall n :: n in key.value <==> VariesOn(vary, n))
            && (key.Some? ==> forall n :: n in key.value && Sized(Selected(h, p, forwardable, n)) ==>
                  Unframed(key.value[n]) == Some(Selected(h, p, forwardable, n)))
  {
    hide VaryFields, Selected, FramedAll, Unframed, AllUsable, VariesOn, Sized;
    VaryFieldsAre(vary);
    var key := Variance(vary, h, p, forwardable);
    if key.Some? {
      forall n | n in key.value && Sized(Selected(h, p, forwardable, n))
        ensures Unframed(key.value[n]) == Some(Selected(h, p, forwardable, n))
      {
        FramingRoundTrip(Selected(h, p, forwardable, n));
      }
    }
  }

  /**
   What the upstream is sent under a name: the plan's own value if it has one; nothing if the plan drops
   the header or the allowlist does not have it; the target's address as `host`, unless the client's is
   preserved; and otherwise what the client sent.
   */
  lemma SentValuesAre(h: Headers, f: Forwarding, forwardable: Name -> bool, p: Plan, name: Name)
    requires WellFormed(p)
    ensures ValuesOf(Sent(h, f, forwardable, p), name) ==
      if Added(p.additions, name).Some? then [Added(p.additions, name).value]
      else if name in p.removals || (f.allowlist && !forwardable(name)) then []
      else if name == "host" && !f.preserveHost then [f.address]
      else if name in h then h[name] else []
  {
    var hosted := if f.preserveHost then h else h[HOST := [f.address]];
    var swept := if f.allowlist then Swept(hosted, forwardable) else hosted;
    InsertedValues(swept - p.removals, p.additions, name);
  }

  /** The value a plan adds under a name is that of an addition of this name, and there is one if any addition has it. */
  lemma {:induction false} AddedIs(additions: seq<Addition>, name: Name)
    ensures Added(additions, name).None? <==> forall i :: 0 <= i < |additions| ==> additions[i].name != name
    ensures Added(additions, name).Some? ==> exists i :: 0 <= i < |additions| && additions[i] == Addition(name, Added(additions, name).value)
  {
    if additions != [] {
      AddedIs(additions[1..], name);
      assert forall i :: 1 <= i < |additions| ==> additions[i] == additions[1..][i - 1];
      if additions[0].name != name && Added(additions, name).Some? {
        var i :| 0 <= i < |additions[1..]| && additions[1..][i] == Addition(name, Added(additions, name).value);
        assert additions[i + 1] == additions[1..][i];
      }
    }
  }
}
