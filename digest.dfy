/** The digest record and `build_message_link`. */
module Digest {
  import opened PyStr

  /** One summarized unread message, as the report and the notification see it. */
  datatype DigestItem = DigestItem(
    channelTitle: string,
    channelId: int,
    messageId: int,
    date: string,
    text: string,
    summary: string,
    messageLink: string)

  /** The two attributes of a Telegram channel the link builder reads. */
  datatype Channel = Channel(id: int, username: Option<string>)

  /** `if channel.username:` -- a missing and an empty username are both false. */
  predicate HasUsername(channel: Channel) {
    channel.username.Some? && channel.username.value != ""
  }

  function Abs(i: int): nat { if i < 0 then -i else i }

  const PublicPrefix := "https://t.me/"
  const PrivatePrefix := "https://t.me/c/"

  /** `str(abs(channel.id))`, without its first three characters when they are "100". */
  function InternalChannelId(id: int): (r: string)
    ensures forall i :: 0 <= i < |r| ==> IsDigit(r[i])
    ensures var digits := NatToString(Abs(id));
      (StartsWith(digits, "100") ==> "100" + r == digits)
      && (!StartsWith(digits, "100") ==> r == digits)
  {
    var digits := NatToString(Abs(id));
    if StartsWith(digits, "100") then
      assert digits == digits[..3] + digits[3..];
      digits[3..]
    else digits
  }

  /** `build_message_link(channel, message_id)`: the channel's public page
      when it has a username, its internal `t.me/c/` page otherwise, and the
      message id as the last path segment either way. */
  function BuildMessageLink(channel: Channel, messageId: int): (r: string)
    ensures HasUsername(channel) ==> r == PublicPrefix + channel.username.value + "/" + LastSegment(r)
    ensures !HasUsername(channel) ==> r == PrivatePrefix + InternalChannelId(channel.id) + "/" + LastSegment(r)
    ensures LastSegment(r) == IntToString(messageId)
  {
    var page := if HasUsername(channel) then PublicPrefix + channel.username.value
      else PrivatePrefix + InternalChannelId(channel.id);
    var id := IntToString(messageId);
    IdHasNoSlash(messageId);
    LastSegmentAfterSlash(page, id);
    page + "/" + id
  }

  lemma IdHasNoSlash(i: int)
    ensures forall k :: 0 <= k < |IntToString(i)| ==> IntToString(i)[k] != '/'
  {
    var digits := NatToString(Abs(i));
    assert forall k :: 0 <= k < |digits| ==> digits[k] != '/' by {
      forall k | 0 <= k < |digits| ensures digits[k] != '/' { assert IsDigit(digits[k]); }
    }
    if i < 0 {
      assert forall k :: 1 <= k < |IntToString(i)| ==> IntToString(i)[k] == digits[k - 1];
    }
  }

  /** The text after the last `/`. */
  function LastSegment(s: string): (r: string)
    ensures |r| <= |s| && r == s[|s| - |r|..]
  {
    if s == [] || s[|s| - 1] == '/' then "" else LastSegment(s[..|s| - 1]) + [s[|s| - 1]]
  }

  lemma {:induction false} LastSegmentAfterSlash(prefix: string, segment: string)
    requires forall i :: 0 <= i < |segment| ==> segment[i] != '/'
    ensures LastSegment(prefix + "/" + segment) == segment
  {
    var s := prefix + "/" + segment;
    if segment != [] {
      var init := segment[..|segment| - 1];
      assert s[..|s| - 1] == prefix + "/" + init;
      LastSegmentAfterSlash(prefix, init);
      assert init + [segment[|segment| - 1]] == segment;
    }
  }

  /** Both kinds of link end in the message id, which can be read back from
      the last path segment. */
  lemma MessageIdReadsBack(channel: Channel, messageId: nat)
    ensures var segment := LastSegment(BuildMessageLink(channel, messageId));
      segment == NatToString(messageId) && ParseNat(segment) == messageId
  {
    ParseNatToString(messageId);
  }

  /** An id whose decimal form is "100" followed by exactly `k` digits `b`
      -- the marked form `-100…` of a channel id among them -- links as `b`. */
  lemma LeadingHundredDropped(id: int, k: nat, b: nat)
    requires k >= 1 && Pow10(k - 1) <= b < Pow10(k)
    requires Abs(id) == 100 * Pow10(k) + b
    ensures InternalChannelId(id) == NatToString(b)
  {
    NatToStringShift(100, k, b);
    PaddedDigitsExact(b, k);
    assert NatToString(100) == "100";
    var digits := NatToString(Abs(id));
    assert digits == "100" + NatToString(b);
    assert digits[..3] == "100";
  }

  /** A channel without a username whose marked id is `-100` followed by the
      ten digits of `b` gets the link `https://t.me/c/<b>/<message id>`. */
  lemma MarkedChannelLink(b: nat, messageId: int)
    requires Pow10(9) <= b < Pow10(10)
    ensures BuildMessageLink(Channel(-(Pow10(12) + b), None), messageId)
      == PrivatePrefix + NatToString(b) + "/" + IntToString(messageId)
  {
    assert Pow10(12) == 100 * Pow10(10);
    LeadingHundredDropped(-(Pow10(12) + b), 10, b);
  }

  /** The rule looks only at the digits: a positive id that happens to begin
      with "100" loses those digits too, so two different channels can share
      a link. */
  lemma PositiveIdCollides()
    ensures InternalChannelId(1001234567) == InternalChannelId(1234567) == "1234567"
  {
    assert Pow10(7) == 10000000;
    LeadingHundredDropped(1001234567, 7, 1234567);
    assert NatToString(1234567) == "1234567";
    assert "1234567"[..3] == "123";
  }
}
