/** Dotted variable names and decimal player ids: the string operations of the
    standard library that the rule parser and the game state are built on. */

module Wrappers {
  datatype Option<+T> = None | Some(value: T)
}

module Names {
  import opened Wrappers

  // `std::find`, as an index: the first `c` at or after `from`, or the end.
  function Find(s: string, from: nat, c: char): (i: nat)
    requires from <= |s|
    ensures from <= i <= |s|
    ensures i < |s| ==> s[i] == c
    ensures forall k :: from <= k < i ==> s[k] != c
    decreases |s| - from
  {
    if from == |s| || s[from] == c then from else Find(s, from + 1, c)
  }

  // `std::string::find(w) != npos`
  predicate Mentions(s: string, w: string) {
    exists i | 0 <= i <= |s| :: w <= s[i..]
  }

  lemma Assoc(a: string, b: string, c: string)
    ensures (a + b) + c == a + (b + c)
  {
  }

  lemma FindAfterPrefix(p: string, t: string, c: char)
    requires c !in p
    ensures Find(p + t, 0, c) == |p| + Find(t, 0, c)
  {
    var i, j := Find(p + t, 0, c), Find(t, 0, c);
    assert forall k :: 0 <= k < |p| ==> (p + t)[k] == p[k];
    assert |p| <= i < |p + t| ==> (p + t)[i] == t[i - |p|];
    if j < |t| {
      assert (p + t)[|p| + j] == c;
    }
  }

  lemma {:induction false} FindShift(p: string, t: string, from: nat, c: char)
    requires from <= |t|
    ensures Find(p + t, |p| + from, c) == |p| + Find(t, from, c)
    decreases |t| - from
  {
    if from < |t| && t[from] != c {
      FindShift(p, t, from + 1, c);
    }
  }

  lemma CutAtFirst(s: string, from: nat, c: char)
    requires from <= |s| && Find(s, from, c) < |s|
    ensures var d := Find(s, from, c); s[from..] == s[from..d] + [c] + s[d + 1..] && c !in s[from..d]
  {
  }

  // ---------- components ----------

  function Split(s: string): (cs: seq<string>)
    ensures |cs| > 0
    decreases |s|
  {
    var d := Find(s, 0, '.');
    if d == |s| then [s] else [s[..d]] + Split(s[d + 1..])
  }

  function Join(cs: seq<string>): string
    requires |cs| > 0
  {
    if |cs| == 1 then cs[0] else cs[0] + "." + Join(cs[1..])
  }

  function Mapped(f: string -> string, cs: seq<string>): (r: seq<string>)
    ensures |r| == |cs|
  {
    if cs == [] then [] else [f(cs[0])] + Mapped(f, cs[1..])
  }

  // Apply `f` to every component of a dotted name.
  function Rewrite(f: string -> string, s: string): string {
    Join(Mapped(f, Split(s)))
  }

  predicate All(p: string -> bool, cs: seq<string>) {
    cs == [] || (p(cs[0]) && All(p, cs[1..]))
  }

  // Every component of a dotted name satisfies `p`.
  predicate AllComponents(p: string -> bool, s: string) {
    All(p, Split(s))
  }

  lemma {:induction false} AllMembers(p: string -> bool, cs: seq<string>)
    ensures All(p, cs) <==> forall c :: c in cs ==> p(c)
  {
    if cs != [] {
      AllMembers(p, cs[1..]);
      assert forall c :: c in cs <==> c == cs[0] || c in cs[1..];
    }
  }

  lemma {:induction false} MappedAt(f: string -> string, cs: seq<string>, i: nat)
    requires i < |cs|
    ensures Mapped(f, cs)[i] == f(cs[i])
  {
    if i > 0 {
      MappedAt(f, cs[1..], i - 1);
    }
  }

  lemma {:induction false} SplitDotless(s: string)
    ensures forall c :: c in Split(s) ==> '.' !in c
    decreases |s|
  {
    var d := Find(s, 0, '.');
    if d < |s| {
      SplitDotless(s[d + 1..]);
    }
  }

  lemma {:induction false} JoinSplit(s: string)
    ensures Join(Split(s)) == s
    decreases |s|
  {
    var d := Find(s, 0, '.');
    if d < |s| {
      JoinSplit(s[d + 1..]);
      assert s == s[..d] + "." + s[d + 1..];
    }
  }

  lemma {:induction false} SplitJoin(cs: seq<string>)
    requires |cs| > 0 && forall c :: c in cs ==> '.' !in c
    ensures Split(Join(cs)) == cs
  {
    if |cs| == 1 {
      SplitDotFree(cs[0]);
    } else {
      SplitJoin(cs[1..]);
      SplitAtDot(cs[0], Join(cs[1..]));
    }
  }

  lemma SplitDotFree(s: string)
    requires '.' !in s
    ensures Split(s) == [s]
  {
  }

  lemma SplitAtDot(head: string, rest: string)
    requires '.' !in head
    ensures Split(head + "." + rest) == [head] + Split(rest)
  {
    var s := head + "." + rest;
    var d := Find(s, 0, '.');
    assert s[|head|] == '.';
    assert forall k :: 0 <= k < |head| ==> s[k] == head[k];
    assert d == |head|;
    assert s[..d] == head && s[d + 1..] == rest;
  }

  lemma RewriteAtDot(f: string -> string, head: string, rest: string)
    requires '.' !in head
    ensures Rewrite(f, head + "." + rest) == f(head) + "." + Rewrite(f, rest)
  {
    SplitAtDot(head, rest);
    var cs := [head] + Split(rest);
    assert cs[1..] == Split(rest);
    assert Mapped(f, cs)[1..] == Mapped(f, cs[1..]);
  }

  lemma AllAtDot(p: string -> bool, head: string, rest: string)
    requires '.' !in head
    ensures AllComponents(p, head + "." + rest) <==> p(head) && AllComponents(p, rest)
  {
    SplitAtDot(head, rest);
    assert ([head] + Split(rest))[1..] == Split(rest);
  }

  lemma AllDotFree(p: string -> bool, s: string)
    requires '.' !in s
    ensures AllComponents(p, s) <==> p(s)
  {
    SplitDotFree(s);
    assert All(p, [s][1..]);
  }

  lemma RewriteDotFree(f: string -> string, s: string)
    requires '.' !in s
    ensures Rewrite(f, s) == f(s)
  {
  }

  lemma RewriteIdentity(f: string -> string, s: string)
    requires AllComponents(c => f(c) == c, s)
    ensures Rewrite(f, s) == s
  {
    var cs := Split(s);
    AllMembers(c => f(c) == c, cs);
    forall i | 0 <= i < |cs| ensures Mapped(f, cs)[i] == cs[i] {
      MappedAt(f, cs, i);
      assert cs[i] in cs;
    }
    assert Mapped(f, cs) == cs;
    JoinSplit(s);
  }

  // ---------- decimal player ids ----------

  // `uintptr_t`
  type PlayerID = n: int | 0 <= n < 0x1_0000_0000_0000_0000

  predicate IsDigit(c: char) { '0' <= c <= '9' }

  function DigitValue(c: char): nat
    requires IsDigit(c)
  {
    c as int - '0' as int
  }

  function DigitChar(d: nat): (c: char)
    requires d < 10
    ensures IsDigit(c) && DigitValue(c) == d
  {
    (('0' as int) + d) as char
  }

  // `std::to_string`
  function ToString(n: nat): (s: string)
    ensures |s| > 0 && forall c :: c in s ==> IsDigit(c)
  {
    if n < 10 then [DigitChar(n)] else ToString(n / 10) + [DigitChar(n % 10)]
  }

  function DecimalValue(s: string): nat
    requires forall c :: c in s ==> IsDigit(c)
  {
    if s == [] then 0
    else DecimalValue(s[..|s| - 1]) * 10 + DigitValue(s[|s| - 1])
  }

  // `std::isspace` in the C locale
  predicate IsBlank(c: char) {
    c == ' ' || 0x9 <= c as int <= 0xD
  }

  function SkipBlanks(s: string): string {
    if s != "" && IsBlank(s[0]) then SkipBlanks(s[1..]) else s
  }

  function LeadingDigits(s: string): (d: string)
    ensures d <= s && forall c :: c in d ==> IsDigit(c)
  {
    if s != "" && IsDigit(s[0]) then [s[0]] + LeadingDigits(s[1..]) else ""
  }

  // The number of these digits, negated after a minus sign; none without digits or out of range.
  function StoulOf(minus: bool, digits: string): Option<PlayerID>
    requires forall c :: c in digits ==> IsDigit(c)
  {
    if digits == "" || DecimalValue(digits) >= 0x1_0000_0000_0000_0000 then None
    else if minus && DecimalValue(digits) > 0 then Some(0x1_0000_0000_0000_0000 - DecimalValue(digits))
    else Some(DecimalValue(digits))
  }

  // `std::stoul`: blanks, a sign, digits, and any text after them. None where it throws: no
  // digits, or a magnitude out of range. A minus sign negates modulo 2^64.
  function Stoul(s: string): Option<PlayerID> {
    var t := SkipBlanks(s);
    var signed := t != "" && (t[0] == '-' || t[0] == '+');
    var digits := LeadingDigits(if signed then t[1..] else t);
    StoulOf(signed && t[0] == '-', digits)
  }

  // Digits only, in the range of PlayerID.
  predicate IsDecimal(s: string) {
    && |s| > 0
    && (forall c :: c in s ==> IsDigit(c))
    && DecimalValue(s) < 0x1_0000_0000_0000_0000
  }

  lemma {:induction false} LeadingDigitsOfDigits(s: string)
    requires forall c :: c in s ==> IsDigit(c)
    ensures LeadingDigits(s) == s
  {
    if s != "" {
      assert s[0] in s && forall c :: c in s[1..] ==> c in s;
      LeadingDigitsOfDigits(s[1..]);
    }
  }

  lemma StoulDecimal(s: string)
    requires IsDecimal(s)
    ensures Stoul(s) == Some(DecimalValue(s))
  {
    assert IsDigit(s[0]) by { assert s[0] in s; }
    LeadingDigitsOfDigits(s);
  }

  lemma {:induction false} DecimalValueToString(n: nat)
    ensures DecimalValue(ToString(n)) == n
  {
    if n >= 10 {
      DecimalValueToString(n / 10);
      var s := ToString(n);
      assert s[..|s| - 1] == ToString(n / 10);
    }
  }

  lemma StoulToString(id: PlayerID)
    ensures IsDecimal(ToString(id)) && Stoul(ToString(id)) == Some(id)
  {
    DecimalValueToString(id);
    StoulDecimal(ToString(id));
  }

  lemma ToStringInjective(a: nat, b: nat)
    ensures ToString(a) == ToString(b) <==> a == b
  {
    DecimalValueToString(a);
    DecimalValueToString(b);
  }

  // Most significant digit first.
  lemma DigitsInOrder(n: nat, d: nat)
    requires d < 10
    ensures ToString(d) == [('0' as int + d) as char]
    ensures n > 0 ==> ToString(10 * n + d) == ToString(n) + [('0' as int + d) as char]
    ensures DecimalValue(ToString(n) + [('0' as int + d) as char]) == 10 * n + d
  {
    DecimalValueToString(n);
    var s := ToString(n) + [('0' as int + d) as char];
    assert s[..|s| - 1] == ToString(n);
  }

  lemma {:induction false} SkipsAllBlanks(blanks: string, s: string)
    requires forall c :: c in blanks ==> c == ' ' || 0x9 <= c as int <= 0xD
    ensures SkipBlanks(blanks + s) == SkipBlanks(s)
  {
    if blanks != "" {
      assert blanks[0] in blanks && (blanks + s)[0] == blanks[0] && (blanks + s)[1..] == blanks[1..] + s;
      assert forall c :: c in blanks[1..] ==> c in blanks;
      SkipsAllBlanks(blanks[1..], s);
    } else {
      assert blanks + s == s;
    }
  }

  lemma {:induction false} LeadingDigitsExactly(digits: string, rest: string)
    requires (forall c :: c in digits ==> '0' <= c <= '9') && (rest == "" || !('0' <= rest[0] <= '9'))
    ensures LeadingDigits(digits + rest) == digits
  {
    var s := digits + rest;
    if digits != "" {
      assert digits[0] in digits && s[0] == digits[0] && s[1..] == digits[1..] + rest;
      assert forall c :: c in digits[1..] ==> c in digits;
      LeadingDigitsExactly(digits[1..], rest);
    } else {
      assert s == rest;
    }
  }

  // Every string is blanks, at most one sign, digits and other text; without digits `stoul` throws.
  lemma StoulExactly(blanks: string, sign: string, digits: string, rest: string)
    requires forall c :: c in blanks ==> c == ' ' || 0x9 <= c as int <= 0xD
    requires sign == "" || sign == "+" || sign == "-"
    requires forall c :: c in digits ==> '0' <= c <= '9'
    requires rest == "" || !('0' <= rest[0] <= '9')
    requires sign == "" && digits == "" && rest != "" ==>
               rest[0] != '+' && rest[0] != '-' && rest[0] != ' ' && !(0x9 <= rest[0] as int <= 0xD)
    ensures Stoul(blanks + (sign + (digits + rest))) ==
            if digits == "" || DecimalValue(digits) >= 0x1_0000_0000_0000_0000 then None
            else if sign == "-" && DecimalValue(digits) > 0 then Some(0x1_0000_0000_0000_0000 - DecimalValue(digits))
            else Some(DecimalValue(digits))
  {
    var signed := sign + (digits + rest);
    SkipsAllBlanks(blanks, signed);
    StoulSigned(sign, digits, rest);
    assert Stoul(blanks + signed) == Stoul(signed);
  }

  lemma StoulSigned(sign: string, digits: string, rest: string)
    requires sign == "" || sign == "+" || sign == "-"
    requires (forall c :: c in digits ==> '0' <= c <= '9') && (rest == "" || !('0' <= rest[0] <= '9'))
    requires sign == "" && digits == "" && rest != "" ==>
               rest[0] != '+' && rest[0] != '-' && rest[0] != ' ' && !(0x9 <= rest[0] as int <= 0xD)
    ensures SkipBlanks(sign + (digits + rest)) == sign + (digits + rest)
    ensures Stoul(sign + (digits + rest)) == StoulOf(sign == "-", digits)
  {
    var number := digits + rest;
    var s := sign + number;
    LeadingDigitsExactly(digits, rest);
    if digits != "" {
      assert number[0] == digits[0] && digits[0] in digits;
    } else {
      assert number == rest;
    }
    if sign == "" {
      assert s == number;
    } else {
      assert s[0] == sign[0] && s[1..] == number;
    }
  }

  // The keys of the per-player map: what `std::to_string` makes of a PlayerID.
  type PlayerKey = s: string | IsDecimal(s) && ToString(DecimalValue(s)) == s witness "0"

  function KeyOf(id: PlayerID): (k: PlayerKey)
    ensures k == ToString(id) && IdOf(k) == id
  {
    StoulToString(id);
    DecimalValueToString(id);
    ToString(id)
  }

  function IdOf(k: PlayerKey): (id: PlayerID)
    ensures ToString(id) == k
  {
    DecimalValue(k)
  }

  lemma StoulOfKey(k: PlayerKey)
    ensures Stoul(k) == Some(IdOf(k))
  {
    StoulDecimal(k);
  }
}
