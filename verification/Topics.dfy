/** 23/WAKU2-TOPICS content topics and relay-sharding pubsub topics as strings. */
module Topics {
  import opened Common
  import opened Text

  datatype CoreError = InvalidContentTopic(topic: string) | InvalidPubsubTopic(topic: string)

  // ----- Content topics

  datatype ContentTopic = ContentTopic(application: string, version: string, name: string, encoding: string)

  predicate Segment(s: string) {
    s != "" && '/' !in s
  }

  predicate WellFormed(t: ContentTopic) {
    Segment(t.application) && Segment(t.version) && Segment(t.name) && Segment(t.encoding)
  }

  function ParseContentTopic(s: string): Result<ContentTopic, CoreError> {
    match StripPrefix(s, "/")
    case None => Err(InvalidContentTopic(s))
    case Some(rest) =>
      var parts := Split(rest, '/');
      if |parts| != 4 || "" in parts then Err(InvalidContentTopic(s))
      else Ok(ContentTopic(parts[0], parts[1], parts[2], parts[3]))
  }

  function ShowContentTopic(t: ContentTopic): string {
    "/" + t.application + "/" + t.version + "/" + t.name + "/" + t.encoding
  }

  lemma ShowIsJoin(t: ContentTopic)
    ensures ShowContentTopic(t) == "/" + Join([t.application, t.version, t.name, t.encoding], '/')
  {
    var parts := [t.application, t.version, t.name, t.encoding];
    assert parts[1..] == [t.version, t.name, t.encoding];
    assert parts[1..][1..] == [t.name, t.encoding];
    assert parts[1..][1..][1..] == [t.encoding];
    assert Join([t.encoding], '/') == t.encoding;
    assert Join([t.name, t.encoding], '/') == t.name + "/" + t.encoding;
    assert Join([t.version, t.name, t.encoding], '/') == t.version + "/" + (t.name + "/" + t.encoding);
  }

  /** Printing and parsing gives back a topic exactly when it is well formed. */
  lemma ContentTopicRoundTrip(t: ContentTopic)
    ensures ParseContentTopic(ShowContentTopic(t)) == Ok(t) <==> WellFormed(t)
  {
    var parts, s := [t.application, t.version, t.name, t.encoding], ShowContentTopic(t);
    ShowIsJoin(t);
    assert s[1..] == Join(parts, '/');
    if WellFormed(t) {
      SplitJoin(parts, '/');
    }
    if ParseContentTopic(s) == Ok(t) {
      var pieces := Split(s[1..], '/');
      assert pieces[0] in pieces && pieces[1] in pieces && pieces[2] in pieces && pieces[3] in pieces;
    }
  }

  /** Every accepted string is the print of what it parses to. */
  lemma ContentTopicRoundTripBack(s: string)
    requires ParseContentTopic(s).Ok?
    ensures ShowContentTopic(ParseContentTopic(s).value) == s
  {
    var t, parts := ParseContentTopic(s).value, Split(s[1..], '/');
    JoinSplit(s[1..], '/');
    ShowIsJoin(t);
    assert parts == [t.application, t.version, t.name, t.encoding];
  }

  // ----- Shards

  datatype ShardId = ShardId(clusterId: U16, shard: U16)

  const PREFIX := "/waku/2/rs/"

  function Digit(d: nat): char
    requires d < 10
  {
    '0' + d as char
  }

  predicate IsDigit(c: char) {
    '0' <= c <= '9'
  }

  function Decimal(n: nat): string {
    if n < 10 then [Digit(n)] else Decimal(n / 10) + [Digit(n % 10)]
  }

  /** The value of a digit string, if it fits 16 bits at every step. */
  function DigitsValue(s: string): Option<U16> {
    if s == "" then Some(0)
    else
      var n := |s| - 1;
      match DigitsValue(s[..n])
      case None => None
      case Some(v) =>
        if !IsDigit(s[n]) then None
        else
          var next := 10 * v + (s[n] - '0') as int;
          if next < 0x1_0000 then Some(next) else None
  }

  /** One optional plus sign, then at least one digit. */
  function ParseU16(s: string): Option<U16> {
    var digits := if s != "" && s[0] == '+' then s[1..] else s;
    if digits == "" then None else DigitsValue(digits)
  }

  function PubsubTopic(id: ShardId): string {
    PREFIX + Decimal(id.clusterId) + "/" + Decimal(id.shard)
  }

  /** Everything before and after the first separator. */
  function SplitOnce(s: string, sep: char): Option<(string, string)> {
    if s == "" then None
    else if s[0] == sep then Some(("", s[1..]))
    else
      match SplitOnce(s[1..], sep)
      case None => None
      case Some((a, b)) => Some(([s[0]] + a, b))
  }

  function ParseShardId(topic: string): Result<ShardId, CoreError> {
    var bad := Err(InvalidPubsubTopic(topic));
    match StripPrefix(topic, PREFIX)
    case None => bad
    case Some(rest) =>
      match SplitOnce(rest, '/')
      case None => bad
      case Some((c, s)) =>
        match ParseU16(c)
        case None => bad
        case Some(clusterId) =>
          match ParseU16(s)
          case None => bad
          case Some(shard) => Ok(ShardId(clusterId, shard))
  }

  lemma {:induction false} DecimalDigits(n: nat)
    ensures Decimal(n) != "" && forall c :: c in Decimal(n) ==> IsDigit(c)
  {
    if n >= 10 {
      DecimalDigits(n / 10);
    }
  }

  lemma {:induction false} DecimalValue(n: nat)
    requires n < 0x1_0000
    ensures DigitsValue(Decimal(n)) == Some(n)
  {
    if n < 10 {
      assert Decimal(n)[..0] == "";
    } else {
      DecimalValue(n / 10);
      assert Decimal(n)[..|Decimal(n)| - 1] == Decimal(n / 10);
    }
  }

  lemma DecimalRoundTrip(n: U16)
    ensures ParseU16(Decimal(n)) == Some(n)
  {
    DecimalDigits(n);
    DecimalValue(n);
    assert Decimal(n)[0] in Decimal(n);
  }

  lemma {:induction false} SplitsOnce(a: string, b: string, sep: char)
    requires sep !in a
    ensures SplitOnce(a + [sep] + b, sep) == Some((a, b))
  {
    var s := a + [sep] + b;
    if a == "" {
      assert s[1..] == b;
    } else {
      SplitsOnce(a[1..], b, sep);
      assert s[1..] == a[1..] + [sep] + b;
      assert a == [a[0]] + a[1..];
    }
  }

  /** Parsing inverts printing for every pair of 16-bit numbers. */
  lemma ShardIdRoundTrip(id: ShardId)
    ensures ParseShardId(PubsubTopic(id)) == Ok(id)
  {
    var c, s := Decimal(id.clusterId), Decimal(id.shard);
    var topic := PubsubTopic(id);
    assert topic == PREFIX + (c + "/" + s);
    assert topic[|PREFIX|..] == c + "/" + s;
    DecimalDigits(id.clusterId);
    SplitsOnce(c, s, '/');
    DecimalRoundTrip(id.clusterId);
    DecimalRoundTrip(id.shard);
  }

  lemma {:induction false} SplitOnceJoins(s: string, sep: char)
    requires SplitOnce(s, sep).Some?
    ensures var (a, b) := SplitOnce(s, sep).value; s == a + [sep] + b && sep !in a
  {
    if s[0] == sep {
      assert s == [sep] + s[1..];
    } else {
      SplitOnceJoins(s[1..], sep);
      assert s == [s[0]] + s[1..];
    }
  }

  /** Neither a plus sign nor a leading zero. */
  predicate Canonical(s: string) {
    s != "" && s[0] != '+' && (s[0] == '0' ==> |s| == 1)
  }

  lemma {:induction false} DecimalIsCanonical(n: nat)
    ensures Canonical(Decimal(n)) && (n > 0 ==> Decimal(n)[0] != '0')
  {
    if n >= 10 {
      DecimalIsCanonical(n / 10);
    }
  }

  lemma {:induction false} CanonicalDigits(s: string)
    requires Canonical(s) && DigitsValue(s).Some?
    ensures s == Decimal(DigitsValue(s).value) && (s[0] != '0' ==> DigitsValue(s).value > 0)
  {
    var n := |s| - 1;
    assert s == s[..n] + [s[n]];
    if n == 0 {
      assert s[..0] == "";
    } else {
      CanonicalDigits(s[..n]);
    }
  }

  lemma CanonicalNumbers(s: string)
    requires ParseU16(s).Some?
    ensures s == Decimal(ParseU16(s).value) <==> Canonical(s)
  {
    DecimalIsCanonical(ParseU16(s).value);
    if Canonical(s) {
      CanonicalDigits(s);
    }
  }

  /** Printing a parsed topic gives it back exactly when both its numbers are
      canonical: a plus sign or leading zeros are accepted but not printed. */
  lemma ShardIdRoundTripBack(topic: string)
    requires ParseShardId(topic).Ok?
    ensures var (c, s) := SplitOnce(topic[|PREFIX|..], '/').value;
      PubsubTopic(ParseShardId(topic).value) == topic <==> Canonical(c) && Canonical(s)
  {
    var id, rest := ParseShardId(topic).value, topic[|PREFIX|..];
    var (c, s) := SplitOnce(rest, '/').value;
    var c', s' := Decimal(id.clusterId), Decimal(id.shard);
    CanonicalNumbers(c);
    CanonicalNumbers(s);
    SplitOnceJoins(rest, '/');
    DecimalDigits(id.clusterId);
    SplitsOnce(c', s', '/');
    assert topic == PREFIX + rest;
    assert PubsubTopic(id) == PREFIX + (c' + "/" + s');
    assert PubsubTopic(id)[|PREFIX|..] == c' + "/" + s';
  }

  // ----- The accepted strings

  ghost predicate Spells(topic: string, c: string, s: string, id: ShardId) {
    && '/' !in c && topic == "/waku/2/rs/" + c + "/" + s
    && ParseU16(c) == Some(id.clusterId) && ParseU16(s) == Some(id.shard)
  }

  lemma AcceptedIsSpelled(topic: string, id: ShardId) returns (c: string, s: string)
    requires ParseShardId(topic) == Ok(id)
    ensures Spells(topic, c, s, id)
  {
    var rest := topic[|PREFIX|..];
    c, s := SplitOnce(rest, '/').value.0, SplitOnce(rest, '/').value.1;
    SplitOnceJoins(rest, '/');
    assert topic == PREFIX + rest && topic == "/waku/2/rs/" + c + "/" + s;
  }

  lemma SpelledIsAccepted(topic: string, c: string, s: string, id: ShardId)
    requires Spells(topic, c, s, id)
    ensures ParseShardId(topic) == Ok(id)
  {
    assert topic == PREFIX + (c + "/" + s) && topic[|PREFIX|..] == c + "/" + s;
    SplitsOnce(c, s, '/');
  }

  /** A topic is accepted exactly when it is the prefix, a number, a slash and a number. */
  lemma ShardIdAccepts(topic: string, id: ShardId)
    ensures ParseShardId(topic) == Ok(id) <==> exists c, s :: Spells(topic, c, s, id)
  {
    if ParseShardId(topic) == Ok(id) {
      var c, s := AcceptedIsSpelled(topic, id);
    }
    if c, s :| Spells(topic, c, s, id) {
      SpelledIsAccepted(topic, c, s, id);
    }
  }

  /** One plus sign in front of digits is ignored. */
  lemma PlusIsIgnored(digits: string)
    requires digits != "" && digits[0] != '+'
    ensures ParseU16("+" + digits) == ParseU16(digits)
  {
    assert ("+" + digits)[1..] == digits;
  }

  /** So are leading zeros. */
  lemma {:induction false} ZeroIsIgnored(digits: string)
    ensures DigitsValue("0" + digits) == DigitsValue(digits)
  {
    if digits == "" {
      assert "0"[..0] == "";
    } else {
      var n := |digits| - 1;
      ZeroIsIgnored(digits[..n]);
      assert ("0" + digits)[..n + 1] == "0" + digits[..n];
    }
  }
}
