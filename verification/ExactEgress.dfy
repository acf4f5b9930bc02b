/** The exact FQDN:port destinations that may be granted
    (internal/engine/policy/policy.go, ValidateExactEgress). */
module ExactEgress {
  import opened Text

  datatype Destination = Destination(host: string, port: int)

  const NON_GRANTABLE: set<string> :=
    {"localhost", "metadata.google.internal", "metadata", "instance-data.ec2.internal"}

  predicate AlphaNum(c: char) { 'a' <= c <= 'z' || IsDigit(c) }

  /** One host label: 1 to 63 octets (section 2.3.4 of RFC 1035), letters, digits and inner
      hyphens, a leading digit allowed (section 2.1 of RFC 1123). */
  predicate IsLabel(l: string) {
    && 1 <= |l| <= 63
    && AlphaNum(l[0]) && AlphaNum(l[|l| - 1])
    && forall c :: c in l ==> AlphaNum(c) || c == '-'
  }

  predicate IsFQDN(h: string) {
    var labels := Split(h, '.');
    |labels| >= 2 && forall l :: l in labels ==> IsLabel(l)
  }

  function DigitValue(c: char): (v: nat)
    requires IsDigit(c)
  {
    (c as int) - ('0' as int)
  }

  predicate IsOctet(s: string) {
    && 1 <= |s| <= 3 && (forall c :: c in s ==> IsDigit(c))
    && (|s| > 1 ==> s[0] != '0')
    && (|s| == 3 ==> DigitValue(s[0]) * 100 + DigitValue(s[1]) * 10 + DigitValue(s[2]) <= 255)
  }

  /** The only IP literal a host made of labels can be: a dotted quad. */
  predicate IsDottedQuad(h: string) {
    var fields := Split(h, '.');
    |fields| == 4 && forall f :: f in fields ==> IsOctet(f)
  }

  /** The normalised destinations ValidateExactEgress returns unchanged. */
  predicate Grantable(d: Destination) {
    IsFQDN(d.host) && !IsDottedQuad(d.host) && d.host !in NON_GRANTABLE && d.port in {80, 443}
  }

  // ---------------------------------------------------------------------------------------------
  // Which destinations these are

  /** On letters and digits alone the length decides. */
  lemma LabelByLength(l: string)
    requires forall c :: c in l ==> AlphaNum(c)
    ensures IsLabel(l) <==> 1 <= |l| <= 63
  {
  }

  /** An inner hyphen is allowed, one at either end is not, and nothing else is. */
  lemma LabelHyphens(a: string, b: string)
    requires IsLabel(a) && IsLabel(b) && |a| + |b| < 63
    ensures IsLabel(a + "-" + b) && !IsLabel("-" + a) && !IsLabel(a + "-")
    ensures forall c :: !AlphaNum(c) && c != '-' ==> !IsLabel(a + [c] + b)
  {
    assert (a + "-" + b)[|a + "-" + b| - 1] == b[|b| - 1];
    forall c | !AlphaNum(c) && c != '-'
      ensures !IsLabel(a + [c] + b)
    {
      assert (a + [c] + b)[|a|] == c;
    }
  }

  /** The octets are the numerals of 0 to 255. */
  lemma OctetIsByte(n: nat)
    ensures IsOctet(Decimal(n)) <==> n <= 255
  {
    hide Decimal, Value;
    var s := Decimal(n);
    DecimalDenotes(n);
    DecimalSize(n);
    if |s| <= 3 {
      ShortValue(s);
    }
  }

  lemma {:induction false} DecimalSize(n: nat)
    ensures n < 1000 <==> |Decimal(n)| <= 3
    ensures n < 100 <==> |Decimal(n)| <= 2
    ensures n < 10 <==> |Decimal(n)| <= 1
  {
    if n < 10 {
    } else {
      DecimalSize(n / 10);
    }
  }

  lemma ValueMore(s: string, c: char)
    requires (forall d :: d in s ==> IsDigit(d)) && IsDigit(c)
    ensures (forall d :: d in s + [c] ==> IsDigit(d)) && Value(s + [c]) == 10 * Value(s) + DigitValue(c)
  {
    assert (s + [c])[..|s|] == s;
  }

  lemma NoValue()
    ensures Value("") == 0
  {
  }

  lemma ShortValue(s: string)
    requires 1 <= |s| <= 3 && forall c :: c in s ==> IsDigit(c)
    ensures |s| == 3 ==> Value(s) == DigitValue(s[0]) * 100 + DigitValue(s[1]) * 10 + DigitValue(s[2])
    ensures |s| < 3 ==> Value(s) < 100
  {
    hide Value;
    NoValue();
    ValueMore("", s[0]);
    assert "" + [s[0]] == [s[0]];
    if |s| == 1 {
      assert s == [s[0]];
    } else {
      ValueMore([s[0]], s[1]);
      if |s| == 2 {
        assert s == [s[0]] + [s[1]];
      } else {
        ValueMore([s[0]] + [s[1]], s[2]);
        assert s == [s[0]] + [s[1]] + [s[2]];
      }
    }
  }

  /** Every character of a grantable host is a lower-case letter, a digit, a hyphen or a dot, and it has a dot. */
  lemma GrantableCharacters(d: Destination)
    requires Grantable(d)
    ensures '.' in d.host && forall c :: c in d.host ==> 'a' <= c <= 'z' || '0' <= c <= '9' || c == '-' || c == '.'
    ensures d.port == 80 || d.port == 443
    ensures d.host !in {"localhost", "metadata.google.internal", "metadata", "instance-data.ec2.internal"}
  {
    hide Split, Join, IsLabel;
    var labels := Split(d.host, '.');
    JoinSplit(d.host, '.');
    assert labels == [labels[0]] + labels[1..];
    JoinConcat([labels[0]], labels[1..], '.');
    assert d.host == Join([labels[0]], '.') + ['.'] + Join(labels[1..], '.');
    assert d.host[|Join([labels[0]], '.')|] == '.';
    JoinedCharacters(labels);
  }

  lemma LabelCharacters(l: string)
    requires IsLabel(l)
    ensures forall c :: c in l ==> 'a' <= c <= 'z' || '0' <= c <= '9' || c == '-'
  {
  }

  lemma {:induction false} JoinedCharacters(labels: seq<string>)
    requires forall l :: l in labels ==> IsLabel(l)
    ensures forall c :: c in Join(labels, '.') ==> 'a' <= c <= 'z' || '0' <= c <= '9' || c == '-' || c == '.'
  {
    hide IsLabel;
    if labels == [] {
    } else {
      LabelCharacters(labels[0]);
      JoinedCharacters(labels[1..]);
    }
  }
}
