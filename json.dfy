/** JSON-shaped values as the site's content files parse to, together with
    the few JavaScript semantics the content code relies on: truthiness,
    own-property access, `String(value)`, `trim`, `split` and `join`. */
module Json {

  import opened Wrappers

  /** A parsed JSON value. Objects keep their members in document order. */
  datatype Value =
    | Str(s: string)
    | Num(n: int)
    | Bool(b: bool)
    | Null
    | Arr(items: seq<Value>)
    | Obj(members: seq<Member>)

  datatype Member = Member(key: string, value: Value)

  /** JavaScript truthiness: `""`, `0`, `false` and `null` are falsy. */
  predicate Truthy(v: Value) {
    match v
    case Str(s) => s != ""
    case Num(n) => n != 0
    case Bool(b) => b
    case Null => false
    case Arr(_) => true
    case Obj(_) => true
  }

  /** Truthiness of a property read, where `None` is `undefined`. */
  predicate Present(o: Option<Value>) {
    o.Some? && Truthy(o.value)
  }

  /** `obj[key]` on an object literal: the first member with that key, if any. */
  function Lookup(members: seq<Member>, key: string): Option<Value> {
    if members == [] then None
    else if members[0].key == key then Some(members[0].value)
    else Lookup(members[1..], key)
  }

  /** A key is defined exactly when some member carries it, and its value is
      that of such a member. */
  lemma {:induction false} LookupFound(members: seq<Member>, key: string)
    ensures Lookup(members, key).Some? <==> exists i :: 0 <= i < |members| && members[i].key == key
    ensures Lookup(members, key).Some? ==>
      exists i :: 0 <= i < |members| && members[i] == Member(key, Lookup(members, key).value)
  {
    if members != [] && members[0].key != key {
      LookupFound(members[1..], key);
      assert forall i :: 0 < i < |members| ==> members[i] == members[1..][i - 1];
    }
  }

  function Keys(members: seq<Member>): (ks: seq<string>)
    ensures |ks| == |members|
    ensures forall i :: 0 <= i < |members| ==> ks[i] == members[i].key
  {
    if members == [] then [] else Keys(members[..|members| - 1]) + [members[|members| - 1].key]
  }

  predicate IsDigit(c: char) { '0' <= c <= '9' }

  function DigitValue(c: char): nat requires IsDigit(c) { (c as int) - ('0' as int) }

  function DigitChar(d: nat): (c: char)
    requires d < 10
    ensures IsDigit(c) && DigitValue(c) == d
  {
    ('0' as int + d) as char
  }

  /** Decimal text of a natural number, as `String(n)` writes it. */
  function NatToString(n: nat): string
    decreases n
  {
    if n < 10 then [DigitChar(n)] else NatToString(n / 10) + [DigitChar(n % 10)]
  }

  /** The text is a non-empty run of digits without a leading zero. */
  lemma {:induction false} NatToStringDigits(n: nat)
    ensures |NatToString(n)| > 0
    ensures forall i :: 0 <= i < |NatToString(n)| ==> IsDigit(NatToString(n)[i])
    ensures n > 0 ==> NatToString(n)[0] != '0'
    decreases n
  {
    if n >= 10 {
      NatToStringDigits(n / 10);
    }
  }

  function IntToString(n: int): string {
    if n < 0 then "-" + NatToString(-n) else NatToString(n)
  }

  function DigitsValue(s: string): nat
    requires forall i :: 0 <= i < |s| ==> IsDigit(s[i])
  {
    if s == [] then 0 else DigitsValue(s[..|s| - 1]) * 10 + DigitValue(s[|s| - 1])
  }

  /** A canonical array index: decimal digits with no leading zero. */
  function ArrayIndex(key: string): Option<nat> {
    if key != [] && (forall i :: 0 <= i < |key| ==> IsDigit(key[i])) && (key == "0" || key[0] != '0')
    then Some(DigitsValue(key))
    else None
  }

  lemma {:induction false} DigitsOfNatToString(n: nat)
    ensures forall i :: 0 <= i < |NatToString(n)| ==> IsDigit(NatToString(n)[i])
    ensures DigitsValue(NatToString(n)) == n
    decreases n
  {
    NatToStringDigits(n);
    if n >= 10 {
      var s := NatToString(n);
      assert s[..|s| - 1] == NatToString(n / 10);
      DigitsOfNatToString(n / 10);
    }
  }

  /** The index a template such as `${path}[${index}]` writes is read back
      as that index by property access. */
  lemma IndexRoundTrip(n: nat)
    ensures ArrayIndex(NatToString(n)) == Some(n)
  {
    DigitsOfNatToString(n);
    NatToStringDigits(n);
    var s := NatToString(n);
    if n == 0 {
      assert s == "0";
    }
  }

  /** `value[key]` restricted to own properties: object members, array and
      string indices, and `length`. Anything else reads as `undefined`. */
  function Get(v: Value, key: string): Option<Value> {
    match v
    case Obj(ms) => Lookup(ms, key)
    case Arr(items) =>
      if key == "length" then Some(Num(|items|))
      else
        (match ArrayIndex(key)
         case Some(i) => if i < |items| then Some(items[i]) else None
         case None => None)
    case Str(s) =>
      if key == "length" then Some(Num(|s|))
      else
        (match ArrayIndex(key)
         case Some(i) => if i < |s| then Some(Str([s[i]])) else None
         case None => None)
    case _ => None
  }

  lemma GetArrayItem(items: seq<Value>, n: nat)
    requires n < |items|
    ensures Get(Arr(items), NatToString(n)) == Some(items[n])
  {
    IndexRoundTrip(n);
    NatToStringDigits(n);
    assert NatToString(n) != "length" by {
      assert IsDigit(NatToString(n)[0]);
    }
  }

  /** `String(value)`, which template literals apply to interpolated values. */
  function JsString(v: Value): string
    decreases v
  {
    match v
    case Str(s) => s
    case Num(n) => IntToString(n)
    case Bool(b) => if b then "true" else "false"
    case Null => "null"
    case Arr(items) => JoinItems(items)
    case Obj(_) => "[object Object]"
  }

  /** `Array.prototype.join(",")`: `null` elements become empty text. */
  function JoinItems(items: seq<Value>): string
    decreases items
  {
    if items == [] then ""
    else
      var last := items[|items| - 1];
      var text := if last.Null? then "" else JsString(last);
      if |items| == 1 then text else JoinItems(items[..|items| - 1]) + "," + text
  }

  /** `parts.join(sep)`. */
  function Join(parts: seq<string>, sep: string): string {
    if parts == [] then ""
    else if |parts| == 1 then parts[0]
    else Join(parts[..|parts| - 1], sep) + sep + parts[|parts| - 1]
  }

  /** `s.split(sep)` for a one-character separator: the pieces between
      separators, empty pieces kept, and never an empty list. */
  function Split(s: string, sep: char): (parts: seq<string>)
    ensures |parts| >= 1
  {
    if s == [] then [[]]
    else
      var rest := Split(s[1..], sep);
      if s[0] == sep then [[]] + rest else [[s[0]] + rest[0]] + rest[1..]
  }

  /** No piece contains the separator. */
  lemma {:induction false} SplitPieces(s: string, sep: char)
    ensures forall i, j :: 0 <= i < |Split(s, sep)| && 0 <= j < |Split(s, sep)[i]| ==> Split(s, sep)[i][j] != sep
  {
    if s != [] {
      SplitPieces(s[1..], sep);
      var rest := Split(s[1..], sep);
      if s[0] != sep {
        var parts := Split(s, sep);
        assert parts[0] == [s[0]] + rest[0];
        forall i, j | 0 <= i < |parts| && 0 <= j < |parts[i]| ensures parts[i][j] != sep {
          if i == 0 {
            if j > 0 {
              assert parts[0][j] == rest[0][j - 1];
            }
          } else {
            assert parts[i] == rest[i];
          }
        }
      }
    }
  }

  lemma JoinCons(p: string, parts: seq<string>, sep: string)
    requires |parts| >= 1
    ensures Join([p] + parts, sep) == p + sep + Join(parts, sep)
    decreases |parts|
  {
    if |parts| > 1 {
      var all := [p] + parts;
      assert all[..|all| - 1] == [p] + parts[..|parts| - 1];
      JoinCons(p, parts[..|parts| - 1], sep);
    }
  }

  /** Splitting and joining with the same separator gives back the text. */
  lemma {:induction false} JoinSplit(s: string, sep: char)
    ensures Join(Split(s, sep), [sep]) == s
  {
    if s != [] {
      var rest := Split(s[1..], sep);
      JoinSplit(s[1..], sep);
      if s[0] == sep {
        JoinCons([], rest, [sep]);
        assert [sep] + s[1..] == s;
      } else {
        JoinConsHead(s[0], rest, [sep]);
        assert [s[0]] + s[1..] == s;
      }
    }
  }

  /** Prepending a character to the first piece prepends it to the text. */
  lemma JoinConsHead(c: char, parts: seq<string>, sep: string)
    requires |parts| >= 1
    ensures Join([[c] + parts[0]] + parts[1..], sep) == [c] + Join(parts, sep)
  {
    var tail := parts[1..];
    if |parts| == 1 {
      assert [[c] + parts[0]] + tail == [[c] + parts[0]];
    } else {
      assert [parts[0]] + tail == parts;
      JoinCons(parts[0], tail, sep);
      JoinCons([c] + parts[0], tail, sep);
    }
  }

  /** The characters `String.prototype.trim` removes: WhiteSpace and
      LineTerminator of the ECMAScript grammar. */
  predicate IsWhiteSpace(c: char) {
    c == '\t' || c == '\n' || c == '\U{B}' || c == '\U{C}' || c == '\r' || c == ' '
    || c == '\U{A0}' || c == '\U{1680}' || ('\U{2000}' <= c <= '\U{200A}')
    || c == '\U{2028}' || c == '\U{2029}' || c == '\U{202F}' || c == '\U{205F}'
    || c == '\U{3000}' || c == '\U{FEFF}'
  }

  function TrimStart(s: string): string {
    if s != [] && IsWhiteSpace(s[0]) then TrimStart(s[1..]) else s
  }

  function TrimEnd(s: string): string {
    if s != [] && IsWhiteSpace(s[|s| - 1]) then TrimEnd(s[..|s| - 1]) else s
  }

  /** `s.trim()`. */
  function Trim(s: string): string {
    TrimEnd(TrimStart(s))
  }

  lemma {:induction false} TrimStartFacts(s: string)
    ensures var r := TrimStart(s);
      && |r| <= |s| && r == s[|s| - |r|..]
      && (forall i :: 0 <= i < |s| - |r| ==> IsWhiteSpace(s[i]))
      && (r != [] ==> !IsWhiteSpace(r[0]))
  {
    if s != [] && IsWhiteSpace(s[0]) {
      var t := s[1..];
      TrimStartFacts(t);
      var r := TrimStart(t);
      assert TrimStart(s) == r;
      assert s[|s| - |r|..] == t[|t| - |r|..];
      forall i | 0 <= i < |s| - |r| ensures IsWhiteSpace(s[i]) {
        if i > 0 {
          assert s[i] == t[i - 1];
        }
      }
    }
  }

  lemma {:induction false} TrimEndFacts(s: string)
    ensures var r := TrimEnd(s);
      && |r| <= |s| && r == s[..|r|]
      && (forall i :: |r| <= i < |s| ==> IsWhiteSpace(s[i]))
      && (r != [] ==> !IsWhiteSpace(r[|r| - 1]))
  {
    if s != [] && IsWhiteSpace(s[|s| - 1]) {
      TrimEndFacts(s[..|s| - 1]);
    }
  }

  /** The trimmed text neither starts nor ends with white space, and it is
      empty exactly when the text is all white space. */
  lemma TrimFacts(s: string)
    ensures Trim(s) != [] ==> !IsWhiteSpace(Trim(s)[0]) && !IsWhiteSpace(Trim(s)[|Trim(s)| - 1])
    ensures Trim(s) == [] <==> forall i :: 0 <= i < |s| ==> IsWhiteSpace(s[i])
  {
    var t := TrimStart(s);
    TrimStartFacts(s);
    TrimEndFacts(t);
    var r := TrimEnd(t);
    if r != [] {
      assert r[0] == t[0];
    }
  }

  /** The required names whose property is missing or falsy in `v`, in list order. */
  function MissingSections(v: Value, required: seq<string>): (missing: seq<string>)
    ensures |missing| <= |required|
  {
    if required == [] then []
    else
      var init := MissingSections(v, required[..|required| - 1]);
      var s := required[|required| - 1];
      if Present(Get(v, s)) then init else init + [s]
  }

  /** A name is reported exactly when it is required and not truthy in `v`. */
  lemma {:induction false} MissingSectionsExact(v: Value, required: seq<string>, s: string)
    ensures s in MissingSections(v, required) <==> s in required && !Present(Get(v, s))
  {
    if required != [] {
      var init := required[..|required| - 1];
      MissingSectionsExact(v, init, s);
      assert required == init + [required[|required| - 1]];
    }
  }

  /** The missing names keep the order of `required`: `idx` gives each one's
      position there, strictly increasing. */
  lemma {:induction false} MissingSectionsOrdered(v: Value, required: seq<string>) returns (idx: seq<nat>)
    ensures |idx| == |MissingSections(v, required)|
    ensures forall i :: 0 <= i < |idx| ==> idx[i] < |required| && required[idx[i]] == MissingSections(v, required)[i]
    ensures forall i, j :: 0 <= i < j < |idx| ==> idx[i] < idx[j]
  {
    if required == [] {
      idx := [];
    } else {
      var n := |required| - 1;
      var init := required[..n];
      var before := MissingSectionsOrdered(v, init);
      if Present(Get(v, required[n])) {
        idx := before;
      } else {
        idx := before + [n];
      }
    }
  }

  /** `names.map(f)` for message templates. */
  function MapText(f: string -> string, names: seq<string>): (r: seq<string>)
    ensures |r| == |names|
    ensures forall i :: 0 <= i < |names| ==> r[i] == f(names[i])
  {
    if names == [] then [] else MapText(f, names[..|names| - 1]) + [f(names[|names| - 1])]
  }

  /** Filtering `a` by absence from `b`: the entries of `a` absent from `b`, in `a`'s order. */
  function Without(a: seq<string>, b: seq<string>): (r: seq<string>)
    ensures |r| <= |a|
  {
    if a == [] then [] else Without(a[..|a| - 1], b) + (if a[|a| - 1] in b then [] else [a[|a| - 1]])
  }

  /** The filter keeps exactly the names of `a` absent from `b`. */
  lemma {:induction false} WithoutExact(a: seq<string>, b: seq<string>, k: string)
    ensures k in Without(a, b) <==> k in a && k !in b
  {
    if a != [] {
      WithoutExact(a[..|a| - 1], b, k);
      assert a == a[..|a| - 1] + [a[|a| - 1]];
    }
  }

  /** The filter keeps `a`'s order: `idx` gives each kept name's position in
      `a`, strictly increasing, and no kept name is in `b`. */
  lemma {:induction false} WithoutOrdered(a: seq<string>, b: seq<string>) returns (idx: seq<nat>)
    ensures |idx| == |Without(a, b)|
    ensures forall i :: 0 <= i < |idx| ==> idx[i] < |a| && a[idx[i]] == Without(a, b)[i] && a[idx[i]] !in b
    ensures forall i, j :: 0 <= i < j < |idx| ==> idx[i] < idx[j]
  {
    if a == [] {
      idx := [];
    } else {
      var n := |a| - 1;
      var before := WithoutOrdered(a[..n], b);
      assert Without(a, b) == Without(a[..n], b) + (if a[n] in b then [] else [a[n]]);
      assert forall i :: 0 <= i < |before| ==> a[..n][before[i]] == a[before[i]];
      if a[n] in b {
        idx := before;
      } else {
        idx := before + [n];
      }
    }
  }

  lemma KeysMembership(members: seq<Member>, k: string)
    ensures k in Keys(members) <==> exists i :: 0 <= i < |members| && members[i].key == k
  {
  }

  lemma MapTextSnoc(f: string -> string, names: seq<string>, name: string)
    ensures MapText(f, names + [name]) == MapText(f, names) + [f(name)]
  {
  }

  lemma MissingSectionsSnoc(v: Value, required: seq<string>, s: string)
    ensures MissingSections(v, required + [s])
            == MissingSections(v, required) + (if Present(Get(v, s)) then [] else [s])
  {
  }
}
