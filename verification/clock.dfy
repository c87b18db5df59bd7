/** The `HH:MM` time token: `hour, minute = map(int, token.split(':'))`. The token must
    split on `:` into exactly two parts and each part must read as an integer; no range
    check is made on either value. */
module Clock {
  import opened Wrappers
  import opened Text
  import opened Decimal

  function ParseTime(token: string): (r: Option<(int, int)>)
    ensures r.Some? ==> multiset(token)[':'] == 1
  {
    var parts := SplitOn(token, ':');
    SplitOnCount(token, ':');
    if |parts| != 2 then None
    else
      match (ParseInt(parts[0]), ParseInt(parts[1]))
      case (Some(h), Some(m)) => Some((h, m))
      case _ => None
  }

  /** A token that parses is an integer, one colon and an integer. */
  lemma ParseTimeSplits(token: string)
    requires ParseTime(token).Some?
    ensures exists i ::
              && 0 <= i < |token| && token[i] == ':'
              && ParseInt(token[..i]) == Some(ParseTime(token).value.0)
              && ParseInt(token[i + 1..]) == Some(ParseTime(token).value.1)
  {
    var parts := SplitOn(token, ':');
    JoinSplitOn(token, ':');
    assert parts[1..][1..] == [];
    assert token == parts[0] + [':'] + parts[1];
    var i := |parts[0]|;
    assert token[..i] == parts[0] && token[i + 1..] == parts[1];
  }

  /** An integer, one colon and an integer parse as that pair. */
  lemma ParseTimeJoined(token: string, i: int)
    requires 0 <= i < |token| && token[i] == ':'
    requires ParseInt(token[..i]).Some? && ParseInt(token[i + 1..]).Some?
    ensures ParseTime(token) == Some((ParseInt(token[..i]).value, ParseInt(token[i + 1..]).value))
  {
    var a, b := token[..i], token[i + 1..];
    NoColon(a);
    NoColon(b);
    assert token == Join([a, b], [':']);
    SplitOnJoin([a, b], ':');
  }

  /** A token parses as (h, m) exactly when it is an integer, one colon and an integer. */
  lemma ParseTimeIff(token: string, h: int, m: int)
    ensures ParseTime(token) == Some((h, m)) <==>
      exists i ::
        && 0 <= i < |token| && token[i] == ':'
        && ParseInt(token[..i]) == Some(h) && ParseInt(token[i + 1..]) == Some(m)
  {
    if ParseTime(token) == Some((h, m)) {
      ParseTimeSplits(token);
    }
    if exists i :: 0 <= i < |token| && token[i] == ':'
        && ParseInt(token[..i]) == Some(h) && ParseInt(token[i + 1..]) == Some(m) {
      var i :| 0 <= i < |token| && token[i] == ':'
        && ParseInt(token[..i]) == Some(h) && ParseInt(token[i + 1..]) == Some(m);
      ParseTimeJoined(token, i);
    }
  }

  /** A token that reads contains no whitespace: it is signs, digits and one colon. */
  lemma ParseTimeNoSpace(token: string)
    requires ParseTime(token).Some?
    ensures |token| > 0 && NoSpace(token)
  {
    var parts := SplitOn(token, ':');
    JoinSplitOn(token, ':');
    assert parts[1..][1..] == [];
    var a, b := parts[0], parts[1];
    assert token == a + [':'] + b;
    IntNoSpace(a);
    IntNoSpace(b);
    NoSpaceConcat(a, [':']);
    NoSpaceConcat(a + [':'], b);
  }

  /** An integer token contains no whitespace. */
  lemma IntNoSpace(s: string)
    requires ParseInt(s).Some?
    ensures NoSpace(s)
  {
    assert forall i :: 0 <= i < |s| ==> !IsSpace(s[i]);
  }

  /** An integer token contains no colon. */
  lemma NoColon(s: string)
    requires ParseInt(s).Some?
    ensures ':' !in s
  {
    assert forall i :: 0 <= i < |s| ==> s[i] != ':';
  }

  /** Writing two integers around a colon gives a token that parses back to them. */
  lemma ParseTimeRoundTrip(h: int, m: int)
    ensures ParseTime(IntToString(h) + ":" + IntToString(m)) == Some((h, m))
  {
    var a, b := IntToString(h), IntToString(m);
    var token := a + ":" + b;
    ParseIntRoundTrip(h);
    ParseIntRoundTrip(m);
    assert token[..|a|] == a && token[|a| + 1..] == b && token[|a|] == ':';
    ParseTimeJoined(token, |a|);
  }
}
