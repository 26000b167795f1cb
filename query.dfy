/** The request's query parameters (Django's QueryDict) and the two things
    `polls_list` does with them: delete the `page` key from a copy, and
    re-encode the copy with `urlencode` so that page links keep the active
    sort and search. Parsing (the inverse of `urlencode`) is modelled so that
    the round trip can be stated. */
module Query {
  import opened Wrappers

  /** One key with all its values, in the order they were given. */
  datatype Entry = Entry(key: string, values: seq<string>)

  /** An ordered multi-valued dictionary: entries in key insertion order. */
  type QueryDict = seq<Entry>

  /** What a parsed QueryDict always satisfies: each key once, each with at
      least one value. */
  predicate WellFormed(q: QueryDict)
  {
    && (forall i, j :: 0 <= i < j < |q| ==> q[i].key != q[j].key)
    && (forall i :: 0 <= i < |q| ==> q[i].values != [])
  }

  /** `q.getlist(k)`, or None when `k` is absent. */
  function Lookup(q: QueryDict, k: string): (r: Option<seq<string>>)
    ensures r.Some? <==> exists i :: 0 <= i < |q| && q[i].key == k
    ensures r.Some? ==> exists i ::
              && 0 <= i < |q| && q[i].key == k && r.value == q[i].values
              && (forall j :: 0 <= j < i ==> q[j].key != k)
    ensures r.Some? && WellFormed(q) ==> r.value != []
  {
    if q == [] then None
    else if q[0].key == k then Some(q[0].values)
    else Lookup(q[1..], k)
  }

  /** `k in request.GET` */
  predicate HasKey(q: QueryDict, k: string)
    ensures HasKey(q, k) <==> exists i :: 0 <= i < |q| && q[i].key == k
  {
    Lookup(q, k).Some?
  }

  /** `q.get(k)` and, for a present key, `q[k]`: the last value given. */
  function LastValue(q: QueryDict, k: string): (r: Option<string>)
    ensures WellFormed(q) ==> (r.Some? <==> HasKey(q, k))
    ensures WellFormed(q) ==> forall i :: 0 <= i < |q| && q[i].key == k ==>
      r == Some(q[i].values[|q[i].values| - 1])
  {
    match Lookup(q, k)
    case None => None
    case Some(vs) => if vs == [] then None else Some(vs[|vs| - 1])
  }

  /** `if k in copy: del copy[k]`: the entry for `k` goes, every other entry
      stays. */
  function Remove(q: QueryDict, k: string): (r: QueryDict)
    ensures !HasKey(r, k)
    ensures forall other :: other != k ==> Lookup(r, other) == Lookup(q, other)
    ensures forall i :: 0 <= i < |r| ==> r[i] in q
    ensures !HasKey(q, k) ==> r == q
  {
    if q == [] then []
    else if q[0].key == k then Remove(q[1..], k)
    else [q[0]] + Remove(q[1..], k)
  }

  lemma ConsWellFormed(e: Entry, t: QueryDict)
    requires WellFormed(t) && e.values != []
    requires forall i :: 0 <= i < |t| ==> t[i].key != e.key
    ensures WellFormed([e] + t)
  {
    var r := [e] + t;
    forall i, j | 0 <= i < j < |r|
      ensures r[i].key != r[j].key
    {
      assert r[j] == t[j - 1];
      if i > 0 {
        assert r[i] == t[i - 1];
      }
    }
  }

  /** Removing a key keeps each remaining key once, with its values. */
  lemma {:induction false} RemoveWellFormed(q: QueryDict, k: string)
    requires WellFormed(q)
    ensures WellFormed(Remove(q, k))
  {
    if q != [] {
      assert WellFormed(q[1..]);
      RemoveWellFormed(q[1..], k);
      if q[0].key != k {
        var tail := Remove(q[1..], k);
        forall i | 0 <= i < |tail|
          ensures tail[i].key != q[0].key
        {
          var j :| 0 <= j < |q[1..]| && q[1..][j] == tail[i];
          assert q[j + 1] == tail[i];
        }
        ConsWellFormed(q[0], tail);
      }
    }
  }

  /** Removing a key twice is removing it once. */
  lemma RemoveIdempotent(q: QueryDict, k: string)
    ensures Remove(Remove(q, k), k) == Remove(q, k)
  {
  }

  /** `q.appendlist(k, v)`: what parsing does with each `k=v` pair. */
  function AppendValue(q: QueryDict, k: string, v: string): QueryDict
  {
    if q == [] then [Entry(k, [v])]
    else if q[0].key == k then [Entry(k, q[0].values + [v])] + q[1..]
    else [q[0]] + AppendValue(q[1..], k, v)
  }

  // ---------------------------------------------------------------------
  // urlencode: quote_plus on every key and value, "k=v" pairs joined by '&'

  /** Characters quote_plus leaves as they are. */
  predicate Unreserved(c: char)
  {
    'a' <= c <= 'z' || 'A' <= c <= 'Z' || '0' <= c <= '9' || c == '_' || c == '.' || c == '-' || c == '~'
  }

  predicate IsHexDigit(c: char)
  {
    '0' <= c <= '9' || 'A' <= c <= 'F' || 'a' <= c <= 'f'
  }

  function HexValue(c: char): (n: nat)
    requires IsHexDigit(c)
    ensures n < 16
  {
    if '0' <= c <= '9' then c as int - '0' as int
    else if 'A' <= c <= 'F' then c as int - 'A' as int + 10
    else c as int - 'a' as int + 10
  }

  /** Upper-case hex digit, as quote_plus writes them. */
  function HexDigit(n: nat): (c: char)
    requires n < 16
    ensures IsHexDigit(c) && HexValue(c) == n
  {
    if n < 10 then ('0' as int + n) as char else ('A' as int + n - 10) as char
  }

  /** The UTF-8 encoding of one character. */
  function Utf8(c: char): (bytes: seq<nat>)
    ensures 1 <= |bytes| <= 4
    ensures forall i :: 0 <= i < |bytes| ==> bytes[i] < 256
    ensures c as int < 0x80 ==> bytes == [c as int]
  {
    var n := c as int;
    if n < 0x80 then [n]
    else if n < 0x800 then [0xC0 + n / 0x40, 0x80 + n % 0x40]
    else if n < 0x10000 then [0xE0 + n / 0x1000, 0x80 + n / 0x40 % 0x40, 0x80 + n % 0x40]
    else [0xF0 + n / 0x40000, 0x80 + n / 0x1000 % 0x40, 0x80 + n / 0x40 % 0x40, 0x80 + n % 0x40]
  }

  /** Characters that can appear in quoted text. */
  predicate QuotedChar(c: char)
  {
    Unreserved(c) || c == '+' || c == '%'
  }

  /** `%XX` for each byte. */
  function Escape(bytes: seq<nat>): (r: string)
    requires forall i :: 0 <= i < |bytes| ==> bytes[i] < 256
    ensures forall i :: 0 <= i < |r| ==> QuotedChar(r[i])
  {
    if bytes == [] then ""
    else ['%', HexDigit(bytes[0] / 16), HexDigit(bytes[0] % 16)] + Escape(bytes[1..])
  }

  function QuoteChar(c: char): (r: string)
    ensures forall i :: 0 <= i < |r| ==> QuotedChar(r[i])
  {
    if Unreserved(c) then [c]
    else if c == ' ' then "+"
    else Escape(Utf8(c))
  }

  /** `quote_plus(s, safe='')`. Its result never holds a separator. */
  function Quote(s: string): (r: string)
    ensures forall i :: 0 <= i < |r| ==> QuotedChar(r[i])
  {
    if s == [] then "" else QuoteChar(s[0]) + Quote(s[1..])
  }

  /** `unquote_plus` for escapes of ASCII characters: '+' is a space and
      `%XX` is the character with code XX; a '%' not followed by two hex
      digits stays as it is. */
  function Unquote(s: string): string
    decreases |s|
  {
    if s == [] then ""
    else if s[0] == '+' then " " + Unquote(s[1..])
    else if s[0] == '%' && |s| >= 3 && IsHexDigit(s[1]) && IsHexDigit(s[2]) then
      [(HexValue(s[1]) * 16 + HexValue(s[2])) as char] + Unquote(s[3..])
    else [s[0]] + Unquote(s[1..])
  }

  predicate Ascii(s: string)
  {
    forall i :: 0 <= i < |s| ==> s[i] as int < 0x80
  }

  /** Unquoting undoes the quoting of one ASCII character. */
  lemma UnquoteChar(c: char, rest: string)
    requires c as int < 0x80
    ensures Unquote(QuoteChar(c) + rest) == [c] + Unquote(rest)
  {
    var t := QuoteChar(c) + rest;
    if Unreserved(c) || c == ' ' {
      assert t[1..] == rest;
    } else {
      var b := c as int;
      assert QuoteChar(c) == ['%', HexDigit(b / 16), HexDigit(b % 16)];
      assert t[3..] == rest;
      assert t[1] == HexDigit(b / 16) && t[2] == HexDigit(b % 16);
      assert HexValue(t[1]) == b / 16 && HexValue(t[2]) == b % 16;
      assert (b / 16) * 16 + b % 16 == b;
    }
  }

  /** Unquoting undoes quoting on ASCII text. */
  lemma {:induction false} UnquoteQuote(s: string)
    requires Ascii(s)
    ensures Unquote(Quote(s)) == s
  {
    if s != [] {
      assert Ascii(s[1..]);
      UnquoteQuote(s[1..]);
      assert Quote(s) == QuoteChar(s[0]) + Quote(s[1..]);
      UnquoteChar(s[0], Quote(s[1..]));
      assert [s[0]] + s[1..] == s;
    }
  }

  /** `'&'.join(segs)` */
  function Join(segs: seq<string>): string
  {
    if segs == [] then ""
    else if |segs| == 1 then segs[0]
    else segs[0] + "&" + Join(segs[1..])
  }

  /** `s.split('&')`: never empty; "" splits into [""]. */
  function Split(s: string): (parts: seq<string>)
    ensures parts != []
  {
    if s == [] then [""]
    else
      var rest := Split(s[1..]);
      if s[0] == '&' then [""] + rest else [[s[0]] + rest[0]] + rest[1..]
  }

  predicate NoAmpersand(s: string)
  {
    forall i :: 0 <= i < |s| ==> s[i] != '&'
  }

  lemma {:induction false} SplitPlain(a: string)
    requires NoAmpersand(a)
    ensures Split(a) == [a]
  {
    if a != [] {
      SplitPlain(a[1..]);
      assert [a[0]] + a[1..] == a;
    }
  }

  lemma {:induction false} SplitAfter(a: string, b: string)
    requires NoAmpersand(a)
    ensures Split(a + "&" + b) == [a] + Split(b)
  {
    if a == [] {
      assert (a + "&" + b)[1..] == b;
    } else {
      SplitAfter(a[1..], b);
      assert (a + "&" + b)[1..] == a[1..] + "&" + b;
      assert [a[0]] + a[1..] == a;
    }
  }

  /** Splitting on '&' undoes joining with '&' when no part holds one. */
  lemma {:induction false} SplitJoin(segs: seq<string>)
    requires segs != []
    requires forall i :: 0 <= i < |segs| ==> NoAmpersand(segs[i])
    ensures Split(Join(segs)) == segs
  {
    if |segs| == 1 {
      SplitPlain(segs[0]);
    } else {
      SplitJoin(segs[1..]);
      SplitAfter(segs[0], Join(segs[1..]));
    }
  }

  /** `seg.split('=', 1)`, padded with an empty value when there is no '='. */
  function SplitPair(seg: string): (string, string)
  {
    if seg == [] then ("", "")
    else if seg[0] == '=' then ("", seg[1..])
    else
      var kv := SplitPair(seg[1..]);
      ([seg[0]] + kv.0, kv.1)
  }

  lemma {:induction false} SplitPairAt(k: string, v: string)
    requires forall i :: 0 <= i < |k| ==> k[i] != '='
    ensures SplitPair(k + "=" + v) == (k, v)
  {
    if k == [] {
      assert (k + "=" + v)[1..] == v;
    } else {
      SplitPairAt(k[1..], v);
      assert (k + "=" + v)[1..] == k[1..] + "=" + v;
      assert [k[0]] + k[1..] == k;
    }
  }

  /** The pairs of a query string, blank values kept, empty segments skipped. */
  function ParsePairs(segs: seq<string>): seq<(string, string)>
  {
    if segs == [] then []
    else if segs[0] == "" then ParsePairs(segs[1..])
    else
      var kv := SplitPair(segs[0]);
      [(Unquote(kv.0), Unquote(kv.1))] + ParsePairs(segs[1..])
  }

  /** Collects parsed pairs into a QueryDict, in order. */
  function Group(ps: seq<(string, string)>): QueryDict
  {
    if ps == [] then []
    else
      var last := ps[|ps| - 1];
      AppendValue(Group(ps[..|ps| - 1]), last.0, last.1)
  }

  /** Parsing a query string into a QueryDict. */
  function Decode(s: string): QueryDict
  {
    Group(ParsePairs(Split(s)))
  }

  function EntryPairs(e: Entry): (ps: seq<(string, string)>)
  {
    seq(|e.values|, i requires 0 <= i < |e.values| => (e.key, e.values[i]))
  }

  /** The key-value pairs of a QueryDict, key by key, as `lists()` gives them. */
  function PairsOf(q: QueryDict): seq<(string, string)>
  {
    if q == [] then [] else PairsOf(q[..|q| - 1]) + EntryPairs(q[|q| - 1])
  }

  function Render(p: (string, string)): string
  {
    Quote(p.0) + "=" + Quote(p.1)
  }

  function RenderAll(ps: seq<(string, string)>): (segs: seq<string>)
    ensures |segs| == |ps|
    ensures forall i :: 0 <= i < |segs| ==> segs[i] == Render(ps[i])
  {
    if ps == [] then [] else [Render(ps[0])] + RenderAll(ps[1..])
  }


  predicate AsciiPairs(ps: seq<(string, string)>)
  {
    forall i :: 0 <= i < |ps| ==> Ascii(ps[i].0) && Ascii(ps[i].1)
  }

  predicate AsciiQuery(q: QueryDict)
  {
    forall e :: e in q ==> Ascii(e.key) && forall v :: v in e.values ==> Ascii(v)
  }

  lemma {:induction false} ParseRendered(ps: seq<(string, string)>)
    requires AsciiPairs(ps)
    ensures ParsePairs(RenderAll(ps)) == ps
  {
    if ps != [] {
      var segs := RenderAll(ps);
      assert segs[1..] == RenderAll(ps[1..]);
      ParseRendered(ps[1..]);
      var qk, qv := Quote(ps[0].0), Quote(ps[0].1);
      assert segs[0] == qk + "=" + qv;
      assert segs[0] != "";
      SplitPairAt(qk, qv);
      UnquoteQuote(ps[0].0);
      UnquoteQuote(ps[0].1);
    }
  }

  lemma {:induction false} AppendNew(q: QueryDict, k: string, v: string)
    requires !HasKey(q, k)
    ensures AppendValue(q, k, v) == q + [Entry(k, [v])]
  {
    if q != [] {
      AppendNew(q[1..], k, v);
    }
  }

  lemma {:induction false} AppendLast(q: QueryDict, k: string, vs: seq<string>, v: string)
    requires !HasKey(q, k)
    ensures AppendValue(q + [Entry(k, vs)], k, v) == q + [Entry(k, vs + [v])]
  {
    if q != [] {
      assert q[0].key != k;
      assert !HasKey(q[1..], k);
      var longer := q + [Entry(k, vs)];
      assert longer[0] == q[0];
      assert longer[1..] == q[1..] + [Entry(k, vs)];
      AppendLast(q[1..], k, vs, v);
      assert AppendValue(longer, k, v) == [q[0]] + AppendValue(longer[1..], k, v);
      assert [q[0]] + (q[1..] + [Entry(k, vs + [v])]) == q + [Entry(k, vs + [v])];
    }
  }

  lemma GroupSnoc(ps: seq<(string, string)>, p: (string, string))
    ensures Group(ps + [p]) == AppendValue(Group(ps), p.0, p.1)
  {
    assert (ps + [p])[..|ps|] == ps;
  }

  lemma EntryPairsSnoc(k: string, vs: seq<string>, v: string)
    ensures EntryPairs(Entry(k, vs + [v])) == EntryPairs(Entry(k, vs)) + [(k, v)]
  {
  }

  /** Grouping the pairs of one new key after earlier pairs adds one entry. */
  lemma {:induction false} GroupEntry(ps: seq<(string, string)>, e: Entry)
    requires e.values != []
    requires !HasKey(Group(ps), e.key)
    ensures Group(ps + EntryPairs(e)) == Group(ps) + [e]
    decreases |e.values|
  {
    var n := |e.values|;
    var init, last := e.values[..n - 1], e.values[n - 1];
    assert init + [last] == e.values;
    EntryPairsSnoc(e.key, init, last);
    var shorter := Entry(e.key, init);
    assert ps + EntryPairs(e) == (ps + EntryPairs(shorter)) + [(e.key, last)];
    GroupSnoc(ps + EntryPairs(shorter), (e.key, last));
    if n == 1 {
      assert ps + EntryPairs(shorter) == ps;
      AppendNew(Group(ps), e.key, last);
    } else {
      GroupEntry(ps, shorter);
      AppendLast(Group(ps), e.key, init, last);
    }
  }

  /** Dropping the last entry keeps a QueryDict well formed, and the last
      key does not occur before it. */
  lemma WellFormedInit(q: QueryDict)
    requires WellFormed(q) && q != []
    ensures WellFormed(q[0..|q| - 1])
    ensures !HasKey(q[0..|q| - 1], q[|q| - 1].key)
  {
    var init := q[..|q| - 1];
    forall i | 0 <= i < |init|
      ensures init[i].key != q[|q| - 1].key
    {
      assert init[i] == q[i];
    }
  }

  /** Grouping the pairs of a well-formed QueryDict gives it back. */
  lemma {:induction false} GroupPairs(q: QueryDict)
    requires WellFormed(q)
    ensures Group(PairsOf(q)) == q
  {
    if q != [] {
      var init, e := q[..|q| - 1], q[|q| - 1];
      WellFormedInit(q);
      GroupPairs(init);
      var ps := PairsOf(init);
      assert PairsOf(q) == ps + EntryPairs(e);
      assert e.values != [];
      GroupEntry(ps, e);
      calc {
        Group(PairsOf(q));
        Group(ps + EntryPairs(e));
        Group(ps) + [e];
        init + [e];
        q;
      }
    }
  }

  lemma {:induction false} AsciiPairsOf(q: QueryDict)
    requires AsciiQuery(q)
    ensures AsciiPairs(PairsOf(q))
  {
    if q != [] {
      var init, e := q[..|q| - 1], q[|q| - 1];
      assert AsciiQuery(init);
      AsciiPairsOf(init);
      assert e in q;
      var ps := PairsOf(init) + EntryPairs(e);
      forall i | |PairsOf(init)| <= i < |ps|
        ensures Ascii(ps[i].0) && Ascii(ps[i].1)
      {
        assert e.values[i - |PairsOf(init)|] in e.values;
      }
    }
  }

  lemma RenderNoAmpersand(p: (string, string))
    ensures NoAmpersand(Render(p))
  {
    var qk, qv := Quote(p.0), Quote(p.1);
    var r := qk + "=" + qv;
    forall j | 0 <= j < |r|
      ensures r[j] != '&'
    {
      if j < |qk| {
        assert r[j] == qk[j] && QuotedChar(qk[j]);
      } else if j > |qk| {
        assert r[j] == qv[j - |qk| - 1] && QuotedChar(qv[j - |qk| - 1]);
      }
    }
  }

  lemma RenderedNoAmpersand(ps: seq<(string, string)>)
    ensures forall i :: 0 <= i < |ps| ==> NoAmpersand(RenderAll(ps)[i])
  {
    forall i | 0 <= i < |ps|
      ensures NoAmpersand(RenderAll(ps)[i])
    {
      RenderNoAmpersand(ps[i]);
    }
  }

  /** Parsing the joined, quoted pairs of a QueryDict gives it back, for
      ASCII keys and values. */
  lemma DecodeEncode(q: QueryDict)
    ensures WellFormed(q) && AsciiQuery(q) ==> Decode(Join(RenderAll(PairsOf(q)))) == q
  {
    if WellFormed(q) && AsciiQuery(q) {
      var ps := PairsOf(q);
      var segs := RenderAll(ps);
      GroupPairs(q);
      if ps == [] {
        assert Split(Join(segs)) == [""];
      } else {
        RenderedNoAmpersand(ps);
        SplitJoin(segs);
        AsciiPairsOf(q);
        ParseRendered(ps);
        calc {
          Decode(Join(segs));
          Group(ParsePairs(Split(Join(segs))));
          Group(ParsePairs(segs));
          Group(ps);
        }
      }
    }
  }

  /** `QueryDict.urlencode()`: what a following request parses back into
      the same parameters. */
  function Encode(q: QueryDict): (r: string)
    ensures WellFormed(q) && AsciiQuery(q) ==> Decode(r) == q
  {
    DecodeEncode(q);
    Join(RenderAll(PairsOf(q)))
  }

  /** Removing a key keeps a QueryDict ASCII. */
  lemma RemoveAscii(q: QueryDict, k: string)
    requires AsciiQuery(q)
    ensures AsciiQuery(Remove(q, k))
  {
    var r := Remove(q, k);
    forall e | e in r
      ensures e in q
    {
      var i :| 0 <= i < |r| && r[i] == e;
    }
  }
}
