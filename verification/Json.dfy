/**
 * The JSON that deploy headers use: one flat object whose members are natural numbers or
 * booleans (RFC 8259, section 4 for objects and section 6 for numbers), or a value that has no
 * members at all. Objects keep the order in which keys were first set, as JavaScript objects do
 * for keys such as "expiry" and "confidential" that are not integers.
 */
module Json {
  import opened Wrappers
  import opened Positional

  /** Integers that a JavaScript number represents exactly. */
  type SafeInt = n: nat | n <= 0x1F_FFFF_FFFF_FFFF

  datatype Value = Number(n: SafeInt) | Boolean(b: bool)

  datatype Entry = Entry(key: string, value: Value)

  predicate DistinctKeys(b: seq<Entry>) {
    forall i, j :: 0 <= i < j < |b| ==> b[i].key != b[j].key
  }

  /** An object: its members in order of first insertion. */
  type Object = b: seq<Entry> | DistinctKeys(b)

  predicate HasKey(b: seq<Entry>, key: string) {
    exists i :: 0 <= i < |b| && b[i].key == key
  }

  function Get(b: seq<Entry>, key: string): Option<Value> {
    if b == [] then None else if b[0].key == key then Some(b[0].value) else Get(b[1..], key)
  }

  // ---------------------------------------------------------------------------
  // Setting members
  // ---------------------------------------------------------------------------

  /** b[e.key] = e.value: an existing key keeps its place, a new one goes last. */
  function Put(b: seq<Entry>, e: Entry): (r: seq<Entry>)
    ensures forall k :: HasKey(r, k) <==> HasKey(b, k) || k == e.key
  {
    if b == [] then
      assert [e][0] == e;
      [e]
    else if b[0].key == e.key then
      HasKeyCons(b);
      HasKeyCons([e] + b[1..]);
      [e] + b[1..]
    else
      HasKeyCons(b);
      HasKeyCons([b[0]] + Put(b[1..], e));
      [b[0]] + Put(b[1..], e)
  }

  lemma HasKeyCons(b: seq<Entry>)
    requires b != []
    ensures forall k :: HasKey(b, k) <==> b[0].key == k || HasKey(b[1..], k)
  {
    forall k
      ensures HasKey(b, k) <==> b[0].key == k || HasKey(b[1..], k)
    {
      if HasKey(b[1..], k) {
        var i :| 0 <= i < |b[1..]| && b[1..][i].key == k;
        assert b[i + 1].key == k;
      }
      if HasKey(b, k) && b[0].key != k {
        var i :| 0 <= i < |b| && b[i].key == k;
        assert b[1..][i - 1].key == k;
      }
    }
  }

  lemma DistinctCons(b: seq<Entry>)
    requires b != []
    ensures DistinctKeys(b) <==> !HasKey(b[1..], b[0].key) && DistinctKeys(b[1..])
  {
    if !HasKey(b[1..], b[0].key) && DistinctKeys(b[1..]) {
      forall i, j | 0 <= i < j < |b|
        ensures b[i].key != b[j].key
      {
        assert b[j] == b[1..][j - 1];
        if i > 0 {
          assert b[i] == b[1..][i - 1];
        }
      }
    }
  }

  lemma {:induction false} PutDistinct(b: seq<Entry>, e: Entry)
    requires DistinctKeys(b)
    ensures DistinctKeys(Put(b, e))
  {
    if b != [] {
      DistinctCons(b);
      DistinctCons(Put(b, e));
      assert Put(b, e)[1..] == if b[0].key == e.key then b[1..] else Put(b[1..], e);
      PutDistinct(b[1..], e);
    }
  }

  /** Object.assign(b, h): sets the members of h in order. */
  function Merge(b: seq<Entry>, h: seq<Entry>): seq<Entry>
    decreases h
  {
    if h == [] then b else Merge(Put(b, h[0]), h[1..])
  }

  lemma {:induction false} MergeDistinct(b: seq<Entry>, h: seq<Entry>)
    requires DistinctKeys(b)
    ensures DistinctKeys(Merge(b, h))
    decreases h
  {
    if h != [] {
      PutDistinct(b, h[0]);
      MergeDistinct(Put(b, h[0]), h[1..]);
    }
  }

  lemma {:induction false} PutOverPut(b: seq<Entry>, e: Entry, f: Entry)
    requires e.key == f.key
    ensures Put(Put(b, e), f) == Put(b, f)
  {
    if b != [] && b[0].key != e.key {
      PutOverPut(b[1..], e, f);
      assert Put(b, e)[1..] == Put(b[1..], e);
    } else {
      assert Put(b, e)[1..] == if b == [] then [] else b[1..];
    }
  }

  /** Overwriting an existing member commutes with setting any other one. */
  lemma {:induction false} PutCommutes(b: seq<Entry>, e: Entry, f: Entry)
    requires e.key != f.key && HasKey(b, e.key)
    ensures Put(Put(b, e), f) == Put(Put(b, f), e)
  {
    HasKeyCons(b);
    assert Put(b, e)[1..] == if b[0].key == e.key then b[1..] else Put(b[1..], e);
    assert Put(b, f)[1..] == if b[0].key == f.key then b[1..] else Put(b[1..], f);
    if b[0].key != e.key && b[0].key != f.key {
      PutCommutes(b[1..], e, f);
    }
  }

  lemma {:induction false} PutThroughMerge(b: seq<Entry>, h: seq<Entry>, e: Entry)
    requires HasKey(b, e.key) && !HasKey(h, e.key)
    ensures Put(Merge(b, h), e) == Merge(Put(b, e), h)
    decreases h
  {
    if h != [] {
      HasKeyCons(h);
      PutCommutes(b, e, h[0]);
      PutThroughMerge(Put(b, h[0]), h[1..], e);
    }
  }

  lemma {:induction false} PutAfterMerge(b: seq<Entry>, h: seq<Entry>, e: Entry)
    requires DistinctKeys(h)
    ensures Put(Merge(b, h), e) == Merge(b, Put(h, e))
    decreases h
  {
    if h != [] {
      DistinctCons(h);
      if h[0].key == e.key {
        PutThroughMerge(Put(b, h[0]), h[1..], e);
        PutOverPut(b, h[0], e);
        assert Put(h, e)[1..] == h[1..];
      } else {
        PutAfterMerge(Put(b, h[0]), h[1..], e);
        assert Put(h, e)[1..] == Put(h[1..], e);
      }
    }
  }

  /** Merging is associative, key order included. */
  lemma {:induction false} MergeAssociative(b: seq<Entry>, g: seq<Entry>, h: seq<Entry>)
    requires DistinctKeys(g)
    ensures Merge(Merge(b, g), h) == Merge(b, Merge(g, h))
    decreases h
  {
    if h != [] {
      PutAfterMerge(b, g, h[0]);
      PutDistinct(g, h[0]);
      MergeAssociative(b, Put(g, h[0]), h[1..]);
    }
  }

  lemma {:induction false} PutPresent(b: seq<Entry>, e: Entry)
    requires DistinctKeys(b) && e in b
    ensures Put(b, e) == b
  {
    if b[0].key != e.key {
      DistinctCons(b);
      PutPresent(b[1..], e);
    } else {
      assert b[0] == e;
    }
  }

  lemma {:induction false} MergePresent(b: seq<Entry>, h: seq<Entry>)
    requires DistinctKeys(b) && forall e :: e in h ==> e in b
    ensures Merge(b, h) == b
  {
    if h != [] {
      PutPresent(b, h[0]);
      MergePresent(b, h[1..]);
    }
  }

  lemma {:induction false} GetAfterPut(b: seq<Entry>, e: Entry, key: string)
    ensures Get(Put(b, e), key) == if key == e.key then Some(e.value) else Get(b, key)
  {
    if b != [] {
      assert Put(b, e)[1..] == if b[0].key == e.key then b[1..] else Put(b[1..], e);
      GetAfterPut(b[1..], e, key);
    }
  }

  lemma {:induction false} GetIffHasKey(b: seq<Entry>, key: string)
    ensures Get(b, key).Some? <==> HasKey(b, key)
  {
    if b != [] {
      HasKeyCons(b);
      GetIffHasKey(b[1..], key);
    }
  }

  /** A merged object holds the members of h, and those of b that h does not mention. */
  lemma {:induction false} GetAfterMerge(b: seq<Entry>, h: seq<Entry>, key: string)
    requires DistinctKeys(h)
    ensures Get(Merge(b, h), key) == if HasKey(h, key) then Get(h, key) else Get(b, key)
    decreases h
  {
    if h != [] {
      HasKeyCons(h);
      DistinctCons(h);
      GetAfterMerge(Put(b, h[0]), h[1..], key);
      GetAfterPut(b, h[0], key);
      GetIffHasKey(h[1..], key);
    }
  }

  /** The members of h whose keys are not in b. */
  function Added(b: seq<Entry>, h: seq<Entry>): seq<Entry> {
    if h == [] then [] else if HasKey(b, h[0].key) then Added(b, h[1..]) else [h[0]] + Added(b, h[1..])
  }

  function KeysOf(b: seq<Entry>): seq<string> {
    seq(|b|, i requires 0 <= i < |b| => b[i].key)
  }

  lemma {:induction false} PutKeys(b: seq<Entry>, e: Entry)
    ensures KeysOf(Put(b, e)) == KeysOf(b) + (if HasKey(b, e.key) then [] else [e.key])
  {
    if b != [] {
      HasKeyCons(b);
      if b[0].key != e.key {
        PutKeys(b[1..], e);
        assert KeysOf(b) == [b[0].key] + KeysOf(b[1..]);
        assert KeysOf([b[0]] + Put(b[1..], e)) == [b[0].key] + KeysOf(Put(b[1..], e));
      } else {
        assert KeysOf([e] + b[1..]) == KeysOf(b);
      }
    }
  }

  lemma {:induction false} AddedIgnores(b: seq<Entry>, c: seq<Entry>, h: seq<Entry>)
    requires forall i :: 0 <= i < |h| ==> (HasKey(b, h[i].key) <==> HasKey(c, h[i].key))
    ensures Added(b, h) == Added(c, h)
  {
    if h != [] {
      assert forall i :: 0 <= i < |h[1..]| ==> h[1..][i] == h[i + 1];
      AddedIgnores(b, c, h[1..]);
    }
  }

  lemma {:induction false} AddedAfterPut(b: seq<Entry>, h: seq<Entry>)
    requires h != [] && DistinctKeys(h)
    ensures Added(Put(b, h[0]), h[1..]) == Added(b, h[1..])
  {
    forall i | 0 <= i < |h[1..]|
      ensures HasKey(Put(b, h[0]), h[1..][i].key) <==> HasKey(b, h[1..][i].key)
    {
      assert h[1..][i] == h[i + 1] && h[0].key != h[i + 1].key;
    }
    AddedIgnores(Put(b, h[0]), b, h[1..]);
  }

  lemma {:induction false} AddedKeys(b: seq<Entry>, h: seq<Entry>)
    requires h != []
    ensures KeysOf(Added(b, h)) == (if HasKey(b, h[0].key) then [] else [h[0].key]) + KeysOf(Added(b, h[1..]))
  {
  }

  /** Object.assign keeps the order of the old keys and puts the new ones behind them, in order. */
  lemma {:induction false} MergeOrder(b: seq<Entry>, h: seq<Entry>)
    requires DistinctKeys(h)
    ensures KeysOf(Merge(b, h)) == KeysOf(b) + KeysOf(Added(b, h))
    decreases h
  {
    if h != [] {
      var added := if HasKey(b, h[0].key) then [] else [h[0].key];
      PutKeys(b, h[0]);
      AddedAfterPut(b, h);
      AddedKeys(b, h);
      DistinctCons(h);
      MergeOrder(Put(b, h[0]), h[1..]);
      AppendRegroups(KeysOf(b), added, KeysOf(Added(b, h[1..])));
    }
  }

  lemma {:induction false} KeysAfterMerge(b: seq<Entry>, h: seq<Entry>, key: string)
    ensures HasKey(Merge(b, h), key) <==> HasKey(b, key) || HasKey(h, key)
    decreases h
  {
    if h != [] {
      HasKeyCons(h);
      KeysAfterMerge(Put(b, h[0]), h[1..], key);
    }
  }

  // ---------------------------------------------------------------------------
  // Documents
  // ---------------------------------------------------------------------------

  /** A JSON text that is an object, or a value without keys: [], "", a number or a boolean. */
  datatype Document = Members(members: Object) | EmptyArray | EmptyText | Scalar(value: Value)

  /** Object.keys. */
  function Keys(d: Document): seq<string> {
    match d
    case Members(b) => seq(|b|, i requires 0 <= i < |b| => b[i].key)
    case _ => []
  }

  /** d[key], None when that is undefined. */
  function Member(d: Document, key: string): Option<Value> {
    match d
    case Members(b) => Get(b, key)
    case _ => None
  }

  /**
   * Object.assign(d, h), as far as it is ever printed: members set on an array are not part of its
   * JSON, and those set on a number, boolean or text go to a temporary object.
   */
  function Assign(d: Document, h: Object): Document {
    match d
    case Members(b) =>
      MergeDistinct(b, h);
      Members(Merge(b, h))
    case _ => d
  }

  lemma {:induction false} AssignAssociative(d: Document, g: Object, h: Object)
    ensures DistinctKeys(Merge(g, h))
    ensures Assign(Assign(d, g), h) == Assign(d, Merge(g, h))
  {
    MergeDistinct(g, h);
    if d.Members? {
      MergeAssociative(d.members, g, h);
    }
  }

  /** An object takes the new members on and keeps the others; anything else has no member, ever. */
  lemma {:induction false} MemberAfterAssign(d: Document, h: Object, key: string)
    ensures Member(Assign(d, h), key) == if d.Members? && HasKey(h, key) then Get(h, key) else Member(d, key)
  {
    if d.Members? {
      GetAfterMerge(d.members, h, key);
    }
  }

  // ---------------------------------------------------------------------------
  // Decimal numbers
  // ---------------------------------------------------------------------------

  predicate IsDigit(c: char) {
    '0' <= c <= '9'
  }

  function DigitValue(c: char): nat
    requires IsDigit(c)
  {
    c as int - '0' as int
  }

  function Decimal(n: nat): (s: string)
    ensures |s| > 0 && forall i :: 0 <= i < |s| ==> IsDigit(s[i])
    ensures s[0] == '0' ==> n == 0 && s == "0"
  {
    if n < 10 then ["0123456789"[n]] else Decimal(n / 10) + ["0123456789"[n % 10]]
  }

  function DecimalValue(s: string): nat
    requires forall i :: 0 <= i < |s| ==> IsDigit(s[i])
  {
    if s == "" then 0 else 10 * DecimalValue(s[..|s| - 1]) + DigitValue(s[|s| - 1])
  }

  lemma {:induction false} DecimalRoundTrip(n: nat)
    ensures DecimalValue(Decimal(n)) == n
  {
    if n < 10 {
      assert Decimal(n)[..0] == "";
    } else {
      DecimalRoundTrip(n / 10);
      assert Decimal(n)[..|Decimal(n)| - 1] == Decimal(n / 10);
    }
  }

  function Pow10(k: nat): (p: nat)
    ensures p > 0
  {
    if k == 0 then 1 else 10 * Pow10(k - 1)
  }

  lemma DigitSpelled(k: nat)
    requires k < 10
    ensures IsDigit("0123456789"[k]) && DigitValue("0123456789"[k]) == k
  {
  }

  lemma {:induction false} DecimalSplits(n: nat)
    ensures DigitValue(Decimal(n)[|Decimal(n)| - 1]) == n % 10
    ensures n >= 10 ==> Decimal(n)[..|Decimal(n)| - 1] == Decimal(n / 10)
  {
    DigitSpelled(n % 10);
  }

  /** Digit i of n, counted from the right, is that of n / 10^i. */
  lemma {:induction false} DecimalDigit(n: nat, i: nat)
    requires i < |Decimal(n)|
    ensures DigitValue(Decimal(n)[|Decimal(n)| - 1 - i]) == n / Pow10(i) % 10
  {
    DecimalSplits(n);
    if i > 0 {
      var tens := Decimal(n / 10);
      assert Decimal(n)[|Decimal(n)| - 1 - i] == tens[|tens| - 1 - (i - 1)];
      DecimalDigit(n / 10, i - 1);
      DivideTwice(n, Pow10(i - 1));
    }
  }

  lemma DivideTwice(n: nat, p: nat)
    requires p > 0
    ensures n / 10 / p == n / (10 * p)
  {
    var q, r := n / 10 / p, n / 10 % p;
    assert n / 10 == q * p + r;
    assert n == 10 * (n / 10) + n % 10;
    assert 10 * (q * p) == q * (10 * p);
    DivModUnique(n, 10 * p, q, 10 * r + n % 10);
  }

  /** Digits without a leading zero are the decimal form of what they denote. */
  lemma {:induction false} DecimalOfValue(s: string)
    requires s != "" && forall i :: 0 <= i < |s| ==> IsDigit(s[i])
    requires |s| > 1 ==> s[0] != '0'
    ensures Decimal(DecimalValue(s)) == s
    ensures s[0] != '0' ==> DecimalValue(s) > 0
  {
    var init, last := s[..|s| - 1], s[|s| - 1];
    assert "0123456789"[DigitValue(last)] == last;
    if |s| == 1 {
      assert init == "" && DecimalValue(s) == DigitValue(last);
    } else {
      DecimalOfValue(init);
      assert DecimalValue(s) / 10 == DecimalValue(init) && DecimalValue(s) % 10 == DigitValue(last);
      assert s == init + [last];
    }
  }

  lemma {:induction false} DecimalLength(n: nat, k: nat)
    requires k > 0 && n < Pow10(k)
    ensures |Decimal(n)| <= k
  {
    if n >= 10 {
      DecimalLength(n / 10, k - 1);
    }
  }

  lemma {:induction false} SafeIntLength(n: SafeInt)
    ensures |Decimal(n)| <= 16
  {
    assert Pow10(16) == 1_0000_0000_0000_0000 by {
      assert Pow10(4) == 1_0000;
      assert Pow10(8) == 1_0000_0000;
      assert Pow10(12) == 1_0000_0000_0000;
    }
    DecimalLength(n, 16);
  }

  /** How many digits s begins with. */
  function LeadingDigits(s: string): (n: nat)
    ensures n <= |s| && forall i :: 0 <= i < n ==> IsDigit(s[i])
    ensures n < |s| ==> !IsDigit(s[n])
  {
    if s == "" || !IsDigit(s[0]) then 0 else 1 + LeadingDigits(s[1..])
  }

  lemma {:induction false} LeadingDigitsOf(digits: string, rest: string)
    requires forall i :: 0 <= i < |digits| ==> IsDigit(digits[i])
    requires rest == "" || !IsDigit(rest[0])
    ensures LeadingDigits(digits + rest) == |digits|
  {
    if digits == "" {
      assert digits + rest == rest;
    } else {
      assert (digits + rest)[1..] == digits[1..] + rest;
      LeadingDigitsOf(digits[1..], rest);
    }
  }

  // ---------------------------------------------------------------------------
  // Printing: JSON.stringify
  // ---------------------------------------------------------------------------

  function PrintValue(v: Value): string {
    match v
    case Number(n) => Decimal(n)
    case Boolean(true) => "true"
    case Boolean(false) => "false"
  }

  function PrintEntry(e: Entry): string {
    "\"" + e.key + "\":" + PrintValue(e.value)
  }

  function PrintMembers(b: seq<Entry>): string
    requires b != []
  {
    if |b| == 1 then PrintEntry(b[0]) else PrintEntry(b[0]) + "," + PrintMembers(b[1..])
  }

  function Print(b: seq<Entry>): string {
    "{" + (if b == [] then "" else PrintMembers(b)) + "}"
  }

  function PrintDocument(d: Document): string {
    match d
    case Members(b) => Print(b)
    case EmptyArray => "[]"
    case EmptyText => "\"\""
    case Scalar(v) => PrintValue(v)
  }

  // ---------------------------------------------------------------------------
  // Parsing: JSON.parse
  // ---------------------------------------------------------------------------

  predicate IsSpace(c: char) {
    c == ' ' || c == '\t' || c == '\n' || c == '\r'
  }

  function SkipSpace(s: string): (r: string)
    ensures |r| <= |s|
  {
    if s != "" && IsSpace(s[0]) then SkipSpace(s[1..]) else s
  }

  /** Consumes one expected character, after white space. */
  function Expect(s: string, c: char): (r: Option<string>)
    ensures r.Some? ==> |r.value| < |s|
  {
    var s := SkipSpace(s);
    if s != "" && s[0] == c then Some(s[1..]) else None
  }

  /** Characters that stand for themselves in a JSON string. */
  predicate IsPlain(c: char) {
    c != '\"' && c != '\\' && c >= ' '
  }

  /** The rest of a string literal, after its opening quote. */
  function ParseKey(s: string): (r: Option<(string, string)>)
    ensures r.Some? ==> |r.value.1| < |s|
  {
    if s == "" then None
    else if s[0] == '\"' then Some(("", s[1..]))
    else if !IsPlain(s[0]) then None
    else
      match ParseKey(s[1..])
      case None => None
      case Some((key, rest)) => Some(([s[0]] + key, rest))
  }

  function ParseDigits(s: string): (r: Option<(Value, string)>)
    ensures r.Some? ==> |r.value.1| < |s|
  {
    var n := LeadingDigits(s);
    if n == 0 || (n > 1 && s[0] == '0') then None
    else
      var v := DecimalValue(s[..n]);
      if v > 0x1F_FFFF_FFFF_FFFF then None else Some((Number(v), s[n..]))
  }

  function ParseValue(s: string): (r: Option<(Value, string)>)
    ensures r.Some? ==> |r.value.1| < |s|
  {
    if "true" <= s then Some((Boolean(true), s[4..]))
    else if "false" <= s then Some((Boolean(false), s[5..]))
    else ParseDigits(s)
  }

  function ParseMember(s: string): (r: Option<(Entry, string)>)
    ensures r.Some? ==> |r.value.1| < |s|
  {
    match Expect(s, '\"')
    case None => None
    case Some(s) =>
      match ParseKey(s)
      case None => None
      case Some((key, s)) =>
        match Expect(s, ':')
        case None => None
        case Some(s) =>
          match ParseValue(SkipSpace(s))
          case None => None
          case Some((value, s)) => Some((Entry(key, value), s))
  }

  /** The members that follow '{' or ',', up to and including '}', set one by one. */
  function ParseMembers(s: string, acc: seq<Entry>): Option<(seq<Entry>, string)>
    decreases |s|
  {
    match ParseMember(s)
    case None => None
    case Some((e, rest)) =>
      match Expect(rest, ',')
      case Some(more) => ParseMembers(more, Put(acc, e))
      case None =>
        match Expect(rest, '}')
        case None => None
        case Some(rest) => Some((Put(acc, e), rest))
  }

  function Parse(s: string): Option<seq<Entry>> {
    match Expect(s, '{')
    case None => None
    case Some(s) =>
      var parsed: Option<(seq<Entry>, string)> :=
        match Expect(s, '}')
        case Some(rest) => Some(([], rest))
        case None => ParseMembers(s, []);
      match parsed
      case None => None
      case Some((b, rest)) => if SkipSpace(rest) == "" then Some(b) else None
  }

  /** A value without keys, and what follows it. */
  function ParseKeyless(s: string): Option<(Document, string)> {
    if "[" <= s then
      match Expect(s[1..], ']')
      case None => None
      case Some(rest) => Some((EmptyArray, rest))
    else if "\"\"" <= s then Some((EmptyText, s[2..]))
    else
      match ParseValue(s)
      case None => None
      case Some((v, rest)) => Some((Scalar(v), rest))
  }

  function ParseDocument(s: string): Option<Document> {
    if Expect(s, '{').Some? then
      ParseDistinct(s);
      match Parse(s)
      case None => None
      case Some(b) => Some(Members(b))
    else
      match ParseKeyless(SkipSpace(s))
      case None => None
      case Some((d, rest)) => if SkipSpace(rest) == "" then Some(d) else None
  }

  lemma {:induction false} ParseMembersDistinct(s: string, acc: seq<Entry>)
    requires DistinctKeys(acc)
    ensures ParseMembers(s, acc).Some? ==> DistinctKeys(ParseMembers(s, acc).value.0)
    decreases |s|
  {
    match ParseMember(s)
    case None =>
    case Some((e, rest)) =>
      PutDistinct(acc, e);
      match Expect(rest, ',')
      case Some(more) => ParseMembersDistinct(more, Put(acc, e));
      case None =>
  }

  lemma ParseDistinct(s: string)
    ensures Parse(s).Some? ==> DistinctKeys(Parse(s).value)
  {
    if Expect(s, '{').Some? {
      ParseMembersDistinct(Expect(s, '{').value, []);
    }
  }

  // ---------------------------------------------------------------------------
  // Parsing undoes printing
  // ---------------------------------------------------------------------------

  predicate PlainKeys(b: seq<Entry>) {
    forall e :: e in b ==> forall i :: 0 <= i < |e.key| ==> IsPlain(e.key[i])
  }

  lemma {:induction false} ParsePrintedKey(key: string, rest: string)
    requires forall i :: 0 <= i < |key| ==> IsPlain(key[i])
    ensures ParseKey(key + "\"" + rest) == Some((key, rest))
  {
    if key == "" {
      assert key + "\"" + rest == "\"" + rest;
    } else {
      var s := key + "\"" + rest;
      assert s[0] == key[0] && s[1..] == key[1..] + "\"" + rest;
      ParsePrintedKey(key[1..], rest);
      assert [key[0]] + key[1..] == key;
    }
  }

  /** White space around the key and the value of a member. */
  datatype Spacing = Spacing(beforeKey: string, afterKey: string, beforeValue: string, afterValue: string) {

    predicate Blank() {
      AllSpace(beforeKey) && AllSpace(afterKey) && AllSpace(beforeValue) && AllSpace(afterValue)
    }
  }

  /** White space around a document, inside an empty object or array, and in each member. */
  datatype Layout = Layout(before: string, inside: string, after: string, members: seq<Spacing>) {

    predicate Blank() {
      && AllSpace(before) && AllSpace(inside) && AllSpace(after)
      && forall i :: 0 <= i < |members| ==> members[i].Blank()
    }
  }

  function SpacedEntry(e: Entry, w: Spacing): string {
    w.beforeKey
    + (['\"'] + (e.key + "\"" + (w.afterKey + ([':'] + (w.beforeValue + (PrintValue(e.value) + w.afterValue))))))
  }

  function SpacedMembers(b: seq<Entry>, ws: seq<Spacing>): string
    requires |ws| == |b| > 0
  {
    if |b| == 1 then SpacedEntry(b[0], ws[0])
    else SpacedEntry(b[0], ws[0]) + ([','] + SpacedMembers(b[1..], ws[1..]))
  }

  /** The members written out as an object with the given white space. */
  function Spaced(b: seq<Entry>, l: Layout): string
    requires |l.members| == |b|
  {
    l.before + (['{'] + ((if b == [] then l.inside else SpacedMembers(b, l.members)) + (['}'] + l.after)))
  }

  /** A document without keys, written with the given white space. */
  function SpacedKeyless(d: Document, l: Layout): string
    requires !d.Members?
  {
    match d
    case EmptyArray => l.before + (['['] + (l.inside + ([']'] + l.after)))
    case EmptyText => l.before + ("\"\"" + l.after)
    case Scalar(v) => l.before + (PrintValue(v) + l.after)
  }

  predicate AllSpace(w: string) {
    forall i :: 0 <= i < |w| ==> IsSpace(w[i])
  }

  lemma {:induction false} SkipsSpace(w: string, rest: string)
    requires AllSpace(w) && (rest == "" || !IsSpace(rest[0]))
    ensures SkipSpace(w + rest) == rest
  {
    if w == "" {
      assert w + rest == rest;
    } else {
      assert (w + rest)[1..] == w[1..] + rest;
      SkipsSpace(w[1..], rest);
    }
  }

  lemma ExpectAfterSpace(w: string, c: char, rest: string)
    requires AllSpace(w) && !IsSpace(c)
    ensures Expect(w + ([c] + rest), c) == Some(rest)
    ensures forall d :: d != c ==> Expect(w + ([c] + rest), d) == None
  {
    SkipsSpace(w, [c] + rest);
    assert ([c] + rest)[1..] == rest;
  }

  lemma ParsePrintedValue(v: Value, rest: string)
    requires rest == "" || !IsDigit(rest[0])
    ensures ParseValue(PrintValue(v) + rest) == Some((v, rest))
    ensures PrintValue(v) != "" && (PrintValue(v)[0] in "tf" || IsDigit(PrintValue(v)[0]))
  {
    var s := PrintValue(v) + rest;
    match v
    case Boolean(true) =>
      assert s[4..] == rest;
    case Boolean(false) =>
      assert s[0] == 'f';
      assert s[5..] == rest;
    case Number(n) =>
      LeadingDigitsOf(Decimal(n), rest);
      DecimalRoundTrip(n);
      assert IsDigit(s[0]) && s[..|Decimal(n)|] == Decimal(n) && s[|Decimal(n)|..] == rest;
  }

  /** White space or a character that is not a digit ends a number. */
  lemma SpaceEndsNumber(w: string, rest: string)
    requires AllSpace(w) && (rest == "" || !IsDigit(rest[0]))
    ensures w + rest == "" || !IsDigit((w + rest)[0])
  {
    assert w == "" ==> w + rest == rest;
    assert w != "" ==> IsSpace(w[0]) && (w + rest)[0] == w[0];
  }

  lemma SpacedEntryThen(e: Entry, w: Spacing, rest: string)
    ensures SpacedEntry(e, w) + rest
         == w.beforeKey + (['\"'] + (e.key + "\"" + (w.afterKey + ([':'] + (w.beforeValue
            + (PrintValue(e.value) + (w.afterValue + rest)))))))
  {
    var value := PrintValue(e.value) + w.afterValue;
    assert value + rest == PrintValue(e.value) + (w.afterValue + rest);
    var afterKey := w.afterKey + ([':'] + (w.beforeValue + value));
    assert afterKey + rest == w.afterKey + ([':'] + (w.beforeValue + (value + rest)));
    assert e.key + "\"" + afterKey + rest == e.key + "\"" + (afterKey + rest);
  }

  lemma ParseSpacedEntry(e: Entry, w: Spacing, rest: string)
    requires PlainKeys([e]) && w.Blank()
    requires rest != "" && !IsDigit(rest[0])
    ensures ParseMember(SpacedEntry(e, w) + rest) == Some((e, w.afterValue + rest))
    ensures Expect(SpacedEntry(e, w) + rest, '}') == None
  {
    assert e in [e];
    var afterValue := w.afterValue + rest;
    SpaceEndsNumber(w.afterValue, rest);
    var value := PrintValue(e.value) + afterValue;
    var afterColon := w.beforeValue + value;
    var afterKey := w.afterKey + ([':'] + afterColon);
    SpacedEntryThen(e, w, rest);
    ExpectAfterSpace(w.beforeKey, '\"', e.key + "\"" + afterKey);
    ParsePrintedKey(e.key, afterKey);
    ExpectAfterSpace(w.afterKey, ':', afterColon);
    ParsePrintedValue(e.value, afterValue);
    SkipsSpace(w.beforeValue, value);
  }

  lemma {:induction false} ParseLastMember(e: Entry, w: Spacing, after: string, acc: seq<Entry>)
    requires PlainKeys([e]) && w.Blank()
    ensures ParseMembers(SpacedEntry(e, w) + (['}'] + after), acc) == Some((Put(acc, e), after))
    ensures Expect(SpacedEntry(e, w) + (['}'] + after), '}') == None
  {
    ParseSpacedEntry(e, w, ['}'] + after);
    ExpectAfterSpace(w.afterValue, '}', after);
  }

  lemma {:induction false} ParseFurtherMember(e: Entry, w: Spacing, rest: string, acc: seq<Entry>)
    requires PlainKeys([e]) && w.Blank()
    ensures ParseMembers(SpacedEntry(e, w) + ([','] + rest), acc) == ParseMembers(rest, Put(acc, e))
    ensures Expect(SpacedEntry(e, w) + ([','] + rest), '}') == None
  {
    ParseSpacedEntry(e, w, [','] + rest);
    ExpectAfterSpace(w.afterValue, ',', rest);
  }

  lemma {:induction false} MergeOneEntry(acc: seq<Entry>, b: seq<Entry>)
    requires |b| == 1
    ensures Merge(acc, b) == Put(acc, b[0])
  {
    assert b[1..] == [];
  }

  lemma {:induction false} SpacedMembersCons(b: seq<Entry>, ws: seq<Spacing>, end: string)
    requires |ws| == |b| > 1
    ensures SpacedMembers(b, ws) + end
         == SpacedEntry(b[0], ws[0]) + ([','] + (SpacedMembers(b[1..], ws[1..]) + end))
  {
    var rest := SpacedMembers(b[1..], ws[1..]);
    assert [','] + rest + end == [','] + (rest + end);
    assert SpacedEntry(b[0], ws[0]) + ([','] + rest) + end == SpacedEntry(b[0], ws[0]) + ([','] + rest + end);
  }

  lemma {:induction false} ParseSpacedMembers(b: seq<Entry>, ws: seq<Spacing>, after: string, acc: seq<Entry>)
    requires |ws| == |b| > 0 && PlainKeys(b) && forall i :: 0 <= i < |ws| ==> ws[i].Blank()
    ensures ParseMembers(SpacedMembers(b, ws) + (['}'] + after), acc) == Some((Merge(acc, b), after))
    ensures Expect(SpacedMembers(b, ws) + (['}'] + after), '}') == None
    decreases b
  {
    assert b[0] in b;
    if |b| == 1 {
      ParseLastMember(b[0], ws[0], after, acc);
      MergeOneEntry(acc, b);
    } else {
      var end := ['}'] + after;
      SpacedMembersCons(b, ws, end);
      ParseFurtherMember(b[0], ws[0], SpacedMembers(b[1..], ws[1..]) + end, acc);
      ParseSpacedMembers(b[1..], ws[1..], after, Put(acc, b[0]));
    }
  }

  lemma {:induction false} OnlySpace(w: string)
    requires AllSpace(w)
    ensures SkipSpace(w) == ""
  {
    assert w + "" == w;
    SkipsSpace(w, "");
  }

  /**
   * Members written out with any white space in any place are read as if set one after the other:
   * order of first mention, value of last mention.
   */
  lemma {:induction false} ParseSpaced(b: seq<Entry>, l: Layout)
    requires PlainKeys(b) && l.Blank() && |l.members| == |b|
    ensures Parse(Spaced(b, l)) == Some(Merge([], b))
    ensures Expect(Spaced(b, l), '{').Some?
  {
    OnlySpace(l.after);
    if b == [] {
      ExpectAfterSpace(l.before, '{', l.inside + (['}'] + l.after));
      ExpectAfterSpace(l.inside, '}', l.after);
    } else {
      ExpectAfterSpace(l.before, '{', SpacedMembers(b, l.members) + (['}'] + l.after));
      ParseSpacedMembers(b, l.members, l.after, []);
    }
  }

  /** A member in the usual spacing: one space after the colon. */
  function UsualEntry(e: Entry): string {
    "\"" + e.key + "\": " + PrintValue(e.value)
  }

  /** White space w before the key and one space before the value. */
  function UsualSpace(w: string): Spacing {
    Spacing(w, "", " ", "")
  }

  lemma JoinEntry(key: string, value: string)
    ensures ['\"'] + (key + "\"" + ("" + ([':'] + (" " + (value + ""))))) == "\"" + key + "\": " + value
  {
    var left := ['\"'] + (key + "\"" + ("" + ([':'] + (" " + (value + "")))));
    var right := "\"" + key + "\": " + value;
    assert |left| == |right| == |key| + |value| + 4;
    assert left[..|key| + 4] == ['\"'] + key + ['\"', ':', ' '] == right[..|key| + 4];
    assert left[|key| + 4..] == value == right[|key| + 4..];
    assert left == left[..|key| + 4] + left[|key| + 4..];
    assert right == right[..|key| + 4] + right[|key| + 4..];
  }

  lemma UsualEntryIsSpaced(e: Entry, w: string)
    ensures SpacedEntry(e, UsualSpace(w)) == w + UsualEntry(e)
  {
    JoinEntry(e.key, PrintValue(e.value));
  }

  lemma UsualPairIsSpaced(e: Entry, f: Entry)
    ensures Spaced([e, f], Layout("", "", "", [UsualSpace(""), UsualSpace(" ")]))
         == "{" + UsualEntry(e) + ", " + UsualEntry(f) + "}"
  {
    var b, ws := [e, f], [UsualSpace(""), UsualSpace(" ")];
    UsualEntryIsSpaced(e, "");
    UsualEntryIsSpaced(f, " ");
    assert b[1..] == [f] && ws[1..] == [ws[1]];
    assert SpacedMembers(b[1..], ws[1..]) == " " + UsualEntry(f);
    assert "" + UsualEntry(e) == UsualEntry(e);
    assert SpacedMembers(b, ws) == UsualEntry(e) + ([','] + (" " + UsualEntry(f)));
    assert [','] + (" " + UsualEntry(f)) == ", " + UsualEntry(f);
  }

  /** Two members in the usual spacing, as in {"expiry": 1, "confidential": true}. */
  lemma UsualSpacing(e: Entry, f: Entry)
    requires PlainKeys([e, f]) && e.key != f.key
    ensures ParseDocument("{" + UsualEntry(e) + ", " + UsualEntry(f) + "}") == Some(Members([e, f]))
  {
    UsualPairIsSpaced(e, f);
    ParseSpacedObject([e, f], Layout("", "", "", [UsualSpace(""), UsualSpace(" ")]));
  }

  lemma ParseSpacedArray(l: Layout)
    requires l.Blank()
    ensures ParseDocument(SpacedKeyless(EmptyArray, l)) == Some(EmptyArray)
  {
    var inner := l.inside + ([']'] + l.after);
    ExpectAfterSpace(l.before, '[', inner);
    SkipsSpace(l.before, ['['] + inner);
    assert (['['] + inner)[1..] == inner;
    ExpectAfterSpace(l.inside, ']', l.after);
    OnlySpace(l.after);
  }

  lemma ParseSpacedText(l: Layout)
    requires l.Blank()
    ensures ParseDocument(SpacedKeyless(EmptyText, l)) == Some(EmptyText)
  {
    SkipsSpace(l.before, "\"\"" + l.after);
    assert ("\"\"" + l.after)[2..] == l.after;
    OnlySpace(l.after);
  }

  lemma ParseScalar(v: Value, rest: string)
    requires rest == "" || !IsDigit(rest[0])
    ensures var s := PrintValue(v) + rest;
      && s != "" && !IsSpace(s[0]) && s[0] != '{'
      && ParseKeyless(s) == Some((Scalar(v), rest))
  {
    ParsePrintedValue(v, rest);
    var s := PrintValue(v) + rest;
    assert s[0] == PrintValue(v)[0];
  }

  lemma ParseSpacedScalar(v: Value, l: Layout)
    requires l.Blank()
    ensures ParseDocument(SpacedKeyless(Scalar(v), l)) == Some(Scalar(v))
  {
    assert l.after + "" == l.after;
    SpaceEndsNumber(l.after, "");
    ParseScalar(v, l.after);
    SkipsSpace(l.before, PrintValue(v) + l.after);
    OnlySpace(l.after);
  }

  /** A value without keys is read back as itself, whatever white space surrounds it. */
  lemma ParseSpacedKeyless(d: Document, l: Layout)
    requires !d.Members? && l.Blank()
    ensures ParseDocument(SpacedKeyless(d, l)) == Some(d)
  {
    match d
    case EmptyArray => ParseSpacedArray(l);
    case EmptyText => ParseSpacedText(l);
    case Scalar(v) => ParseSpacedScalar(v, l);
  }

  const NO_SPACE: Spacing := Spacing("", "", "", "")

  function Tight(n: nat): (ws: seq<Spacing>)
    ensures |ws| == n && forall i :: 0 <= i < n ==> ws[i] == NO_SPACE
  {
    seq(n, i => NO_SPACE)
  }

  lemma EntryWithoutSpace(e: Entry)
    ensures SpacedEntry(e, NO_SPACE) == PrintEntry(e)
  {
  }

  lemma {:induction false} MembersWithoutSpace(b: seq<Entry>)
    requires b != []
    ensures SpacedMembers(b, Tight(|b|)) == PrintMembers(b)
  {
    EntryWithoutSpace(b[0]);
    if |b| > 1 {
      assert Tight(|b|)[1..] == Tight(|b[1..]|);
      MembersWithoutSpace(b[1..]);
      assert PrintEntry(b[0]) + ([','] + PrintMembers(b[1..])) == PrintEntry(b[0]) + "," + PrintMembers(b[1..]);
    }
  }

  lemma PrintIsSpaced(b: seq<Entry>)
    ensures Print(b) == Spaced(b, Layout("", "", "", Tight(|b|)))
  {
    if b != [] {
      MembersWithoutSpace(b);
    }
  }

  lemma {:induction false} MergeIntoEmpty(done: seq<Entry>, b: seq<Entry>)
    requires DistinctKeys(done + b)
    ensures Merge(done, b) == done + b
    decreases b
  {
    if b == [] {
      assert done + b == done;
    } else {
      assert forall i :: 0 <= i < |done| ==> (done + b)[i] == done[i];
      assert (done + b)[|done|] == b[0];
      PutFresh(done, b[0]);
      assert done + [b[0]] + b[1..] == done + b;
      MergeIntoEmpty(done + [b[0]], b[1..]);
    }
  }

  lemma {:induction false} PutFresh(b: seq<Entry>, e: Entry)
    requires !HasKey(b, e.key)
    ensures Put(b, e) == b + [e]
  {
    if b != [] {
      HasKeyCons(b);
      PutFresh(b[1..], e);
      assert [b[0]] + (b[1..] + [e]) == b + [e];
    }
  }

  lemma {:induction false} ParseSpacedDocument(b: seq<Entry>, l: Layout)
    requires PlainKeys(b) && l.Blank() && |l.members| == |b|
    ensures DistinctKeys(Merge([], b))
    ensures ParseDocument(Spaced(b, l)) == Some(Members(Merge([], b)))
  {
    ParseSpaced(b, l);
    MergeDistinct([], b);
  }

  /** Members with distinct keys are read as themselves. */
  lemma ParseSpacedObject(b: Object, l: Layout)
    requires PlainKeys(b) && l.Blank() && |l.members| == |b|
    ensures ParseDocument(Spaced(b, l)) == Some(Members(b))
  {
    ParseSpacedDocument(b, l);
    assert [] + b == b;
    MergeIntoEmpty([], b);
  }

  /** JSON.parse(JSON.stringify(d)) is d, members and order, for keys without escapes. */
  lemma ParsePrinted(d: Document)
    requires d.Members? ==> PlainKeys(d.members)
    ensures ParseDocument(PrintDocument(d)) == Some(d)
  {
    match d
    case Members(b) =>
      PrintIsSpaced(b);
      ParseSpacedObject(b, Layout("", "", "", Tight(|b|)));
    case _ =>
      assert SpacedKeyless(d, Layout("", "", "", [])) == PrintDocument(d);
      ParseSpacedKeyless(d, Layout("", "", "", []));
  }

  // ---------------------------------------------------------------------------
  // The accepted texts
  // ---------------------------------------------------------------------------

  /** The white space that s begins with. */
  function Blanks(s: string): (w: string)
    ensures s == w + SkipSpace(s) && AllSpace(w)
  {
    if s != "" && IsSpace(s[0]) then
      assert s == [s[0]] + s[1..];
      [s[0]] + Blanks(s[1..])
    else ""
  }

  lemma {:induction false} ExpectSplits(s: string, c: char)
    requires Expect(s, c).Some?
    ensures s == Blanks(s) + ([c] + Expect(s, c).value)
  {
    var t := SkipSpace(s);
    assert t == [c] + t[1..];
  }

  lemma {:induction false} KeySplits(s: string)
    requires ParseKey(s).Some?
    ensures var (key, rest) := ParseKey(s).value;
      s == key + "\"" + rest && forall i :: 0 <= i < |key| ==> IsPlain(key[i])
  {
    if s[0] == '\"' {
      assert s == "" + "\"" + s[1..];
    } else {
      KeySplits(s[1..]);
      var (key, rest) := ParseKey(s[1..]).value;
      assert s == [s[0]] + s[1..];
      assert [s[0]] + (key + "\"" + rest) == [s[0]] + key + "\"" + rest;
    }
  }

  lemma ValueSplits(s: string)
    requires ParseValue(s).Some?
    ensures var (v, rest) := ParseValue(s).value; s == PrintValue(v) + rest
  {
    if "true" <= s || "false" <= s {
    } else {
      var n := LeadingDigits(s);
      DecimalOfValue(s[..n]);
      assert s == s[..n] + s[n..];
    }
  }

  /** The member that was read, with its white space; what follows the value is not consumed. */
  lemma MemberSplits(s: string) returns (w: Spacing)
    requires ParseMember(s).Some?
    ensures var (e, rest) := ParseMember(s).value;
      && w.Blank() && w.afterValue == "" && PlainKeys([e])
      && s == w.beforeKey + (['\"'] + (e.key + "\"" + (w.afterKey + ([':'] + (w.beforeValue
              + (PrintValue(e.value) + rest))))))
  {
    var afterQuote := Expect(s, '\"').value;
    var (key, afterKey) := ParseKey(afterQuote).value;
    var afterColon := Expect(afterKey, ':').value;
    ExpectSplits(s, '\"');
    KeySplits(afterQuote);
    ExpectSplits(afterKey, ':');
    ValueSplits(SkipSpace(afterColon));
    w := Spacing(Blanks(s), Blanks(afterKey), Blanks(afterColon), "");
  }

  lemma {:induction false} MembersSplit(s: string, acc: seq<Entry>) returns (b: seq<Entry>, ws: seq<Spacing>)
    requires ParseMembers(s, acc).Some?
    ensures |ws| == |b| > 0 && PlainKeys(b) && forall i :: 0 <= i < |ws| ==> ws[i].Blank()
    ensures var (members, rest) := ParseMembers(s, acc).value;
      members == Merge(acc, b) && s == SpacedMembers(b, ws) + (['}'] + rest)
    decreases |s|
  {
    var (e, rest) := ParseMember(s).value;
    var w := MemberSplits(s);
    w := w.(afterValue := Blanks(rest));
    if Expect(rest, ',').Some? {
      var more := Expect(rest, ',').value;
      ExpectSplits(rest, ',');
      SpacedEntryThen(e, w, [','] + more);
      var c, vs := MembersSplit(more, Put(acc, e));
      b, ws := [e] + c, [w] + vs;
      assert b[1..] == c && ws[1..] == vs;
      SpacedMembersCons(b, ws, ['}'] + ParseMembers(s, acc).value.1);
      assert PlainKeys(b) by {
        assert e in [e];
        assert forall f :: f in b ==> f == e || f in c;
      }
    } else {
      ExpectSplits(rest, '}');
      SpacedEntryThen(e, w, ['}'] + Expect(rest, '}').value);
      b, ws := [e], [w];
      MergeOneEntry(acc, b);
    }
  }

  /** The text is the members of b, written with the white space of l. */
  ghost predicate Writes(s: string, b: seq<Entry>, l: Layout) {
    PlainKeys(b) && l.Blank() && |l.members| == |b| && s == Spaced(b, l)
  }

  lemma {:induction false} AllBlank(s: string)
    requires SkipSpace(s) == ""
    ensures AllSpace(s)
  {
    assert Blanks(s) + "" == Blanks(s);
  }

  lemma ObjectSplits(s: string) returns (b: seq<Entry>, l: Layout)
    requires Parse(s).Some?
    ensures Writes(s, b, l) && Parse(s).value == Merge([], b)
  {
    var inner := Expect(s, '{').value;
    ExpectSplits(s, '{');
    if Expect(inner, '}').Some? {
      var after := Expect(inner, '}').value;
      ExpectSplits(inner, '}');
      AllBlank(after);
      b, l := [], Layout(Blanks(s), Blanks(inner), after, []);
    } else {
      var ws;
      b, ws := MembersSplit(inner, []);
      var after := ParseMembers(inner, []).value.1;
      AllBlank(after);
      l := Layout(Blanks(s), "", after, ws);
    }
  }

  lemma KeylessSplits(s: string) returns (l: Layout)
    requires ParseDocument(s).Some? && !ParseDocument(s).value.Members?
    ensures l.Blank() && s == SpacedKeyless(ParseDocument(s).value, l)
  {
    var t := SkipSpace(s);
    var (d, after) := ParseKeyless(t).value;
    AllBlank(after);
    match d {
      case EmptyArray =>
        ExpectSplits(t[1..], ']');
        l := Layout(Blanks(s), Blanks(t[1..]), after, []);
        assert t == ['['] + t[1..];
      case EmptyText =>
        l := Layout(Blanks(s), "", after, []);
        assert t == "\"\"" + t[2..];
      case Scalar(v) =>
        l := Layout(Blanks(s), "", after, []);
        ValueSplits(t);
    }
  }

  /** The text is a way of writing the document: some members, or a value, with some white space. */
  ghost predicate Denotes(s: string, d: Document) {
    match d
    case Members(m) => exists b, l :: Writes(s, b, l) && m == Merge([], b)
    case _ => exists l: Layout :: l.Blank() && s == SpacedKeyless(d, l)
  }

  /** The parser accepts exactly the texts that denote a document, and returns that document. */
  lemma ParseExactly(s: string, d: Document)
    ensures ParseDocument(s) == Some(d) <==> Denotes(s, d)
  {
    if Denotes(s, d) {
      match d
      case Members(m) =>
        var b, l :| Writes(s, b, l) && m == Merge([], b);
        ParseSpacedDocument(b, l);
      case _ =>
        var l: Layout :| l.Blank() && s == SpacedKeyless(d, l);
        ParseSpacedKeyless(d, l);
    }
    if ParseDocument(s) == Some(d) {
      if d.Members? {
        var b, l := ObjectSplits(s);
      } else {
        var l := KeylessSplits(s);
      }
    }
  }

  /** The characters of the grammar: white space, digits, and what a text may hold unescaped. */
  lemma CharactersSpelled(c: char)
    ensures IsSpace(c) <==> c in [' ', '\t', '\n', '\r']
    ensures IsDigit(c) <==> c in "0123456789"
    ensures IsPlain(c) <==> c != '"' && c != '\\' && c as int >= 32
  {
    assert "0123456789" == ['0', '1', '2', '3', '4', '5', '6', '7', '8', '9'];
  }

  lemma EntrySpelled(key: string, v: Value, quoted: string)
    requires quoted == "\"" + key + "\":"
    ensures PrintEntry(Entry(key, v)) == quoted + PrintValue(v)
  {
  }

  lemma OneMemberSpelled(e: Entry)
    ensures Print([e]) == "{" + PrintEntry(e) + "}"
  {
  }

  lemma TwoMembersSpelled(e: Entry, f: Entry)
    ensures Print([e, f]) == "{" + PrintEntry(e) + "," + PrintEntry(f) + "}"
  {
    assert [e, f][1..] == [f];
    assert PrintMembers([e, f]) == PrintEntry(e) + "," + PrintEntry(f);
    var p, q := PrintEntry(e), PrintEntry(f);
    assert "{" + (p + "," + q) + "}" == "{" + p + "," + q + "}";
  }

  /** The text of the members of a header, spelled out. */
  lemma {:induction false} EntriesSpelled(n: SafeInt, confidential: bool)
    ensures PrintEntry(Entry("expiry", Number(n))) == "\"expiry\":" + Decimal(n)
    ensures PrintEntry(Entry("confidential", Boolean(confidential)))
         == "\"confidential\":" + (if confidential then "true" else "false")
    ensures PrintDocument(Members([])) == "{}" && PrintDocument(EmptyArray) == "[]"
  {
    EntrySpelled("expiry", Number(n), "\"expiry\":");
    EntrySpelled("confidential", Boolean(confidential), "\"confidential\":");
  }

  // ---------------------------------------------------------------------------
  // ASCII text as bytes
  // ---------------------------------------------------------------------------

  predicate IsAscii(s: string) {
    forall i :: 0 <= i < |s| ==> s[i] as int < 128
  }

  function EncodeUtf8(s: string): (b: seq<byte>)
    requires IsAscii(s)
    ensures |b| == |s| && forall i :: 0 <= i < |b| ==> b[i] == s[i] as int
  {
    seq(|s|, i requires 0 <= i < |s| => s[i] as int)
  }

  /**
   * Text of ASCII bytes. Other bytes are None here: the program decodes them, drops a leading byte
   * order mark, and accepts other characters inside the text values of members.
   */
  function DecodeUtf8(b: seq<byte>): (r: Option<string>)
    ensures r.Some? <==> forall i :: 0 <= i < |b| ==> b[i] < 128
    ensures r.Some? ==> |r.value| == |b| && forall i :: 0 <= i < |b| ==> r.value[i] as int == b[i]
  {
    if forall i :: 0 <= i < |b| ==> b[i] < 128
    then Some(seq(|b|, i requires 0 <= i < |b| => b[i] as char))
    else None
  }

  lemma DecodeEncoded(s: string)
    requires IsAscii(s)
    ensures DecodeUtf8(EncodeUtf8(s)) == Some(s)
  {
    var r := DecodeUtf8(EncodeUtf8(s)).value;
    assert forall i :: 0 <= i < |s| ==> r[i] == s[i];
    assert r == s;
  }
}
