/** The client position `<epoch>.<seq>` of the chat-list sync contract. */
module SyncToken {
  import opened Wrappers
  import opened Decimal

  datatype Token = Token(epoch: string, position: nat)

  const MAX_EPOCH_CHARS := 64
  const MAX_SEQ_DIGITS := 15

  predicate IsEpochChar(c: char) {
    'A' <= c <= 'Z' || 'a' <= c <= 'z' || '0' <= c <= '9' || c == '-'
  }

  predicate IsEpoch(s: string) {
    1 <= |s| <= MAX_EPOCH_CHARS && forall i :: 0 <= i < |s| ==> IsEpochChar(s[i])
  }

  predicate IsSeqText(s: string) {
    1 <= |s| <= MAX_SEQ_DIGITS && AllDigits(s)
  }

  /** Index of the first dot, or the length when there is none. */
  function FirstDot(s: string): (i: nat)
    ensures i <= |s|
    ensures forall k :: 0 <= k < i ==> s[k] != '.'
    ensures i < |s| ==> s[i] == '.'
  {
    if s == "" || s[0] == '.' then 0 else 1 + FirstDot(s[1..])
  }

  function FormatSyncToken(t: Token): string {
    t.epoch + "." + Print(t.position)
  }

  function ParseSyncToken(s: string): Option<Token> {
    var i := FirstDot(s);
    if i < |s| && IsEpoch(s[..i]) && IsSeqText(s[i + 1..]) then Some(Token(s[..i], Read(s[i + 1..]))) else None
  }

  /** Everything the parser accepts has the token form, and nothing of that form is refused. */
  lemma ParseExact(s: string)
    ensures ParseSyncToken(s).Some? <==>
      exists epoch, digits :: IsEpoch(epoch) && IsSeqText(digits) && s == epoch + "." + digits
    ensures forall epoch, digits | IsEpoch(epoch) && IsSeqText(digits) && s == epoch + "." + digits ::
      ParseSyncToken(s) == Some(Token(epoch, Read(digits)))
  {
    var i := FirstDot(s);
    if ParseSyncToken(s).Some? {
      assert s == s[..i] + "." + s[i + 1..];
    }
    forall epoch, digits | IsEpoch(epoch) && IsSeqText(digits) && s == epoch + "." + digits
      ensures ParseSyncToken(s) == Some(Token(epoch, Read(digits)))
    {
      assert s[|epoch|] == '.';
      assert forall k :: 0 <= k < |epoch| ==> s[k] == epoch[k];
      assert i == |epoch|;
      assert s[..i] == epoch && s[i + 1..] == digits;
    }
  }

  /** A position the server formats is read back unchanged by either side. */
  lemma FormatParse(t: Token)
    requires IsEpoch(t.epoch) && t.position < Pow10(MAX_SEQ_DIGITS)
    ensures ParseSyncToken(FormatSyncToken(t)) == Some(t)
  {
    PrintLength(t.position, MAX_SEQ_DIGITS);
    ReadPrint(t.position);
    ParseExact(FormatSyncToken(t));
  }

  /** Every position under an epoch of at most 64 ASCII letters, digits and dashes is read back; the UUIDs the server
      makes are such epochs. */
  lemma PlainFormatParse(t: Token)
    requires 1 <= |t.epoch| <= 64 && t.position < Pow10(15)
    requires forall i :: 0 <= i < |t.epoch| ==>
      t.epoch[i] == '-' || '0' <= t.epoch[i] <= '9' || 'A' <= t.epoch[i] <= 'Z' || 'a' <= t.epoch[i] <= 'z'
    ensures ParseSyncToken(FormatSyncToken(t)) == Some(t)
  {
    FormatParse(t);
  }

  /** A text with a character other than ASCII letters, digits, dashes and one dot is refused, and so is one with a
      longer epoch or more digits. */
  lemma ParsedIsPlain(s: string, i: nat)
    requires ParseSyncToken(s).Some? && i < |s|
    ensures 3 <= |s| <= 80 && (s[i] in ".-" || '0' <= s[i] <= '9' || 'A' <= s[i] <= 'Z' || 'a' <= s[i] <= 'z')
    ensures |ParseSyncToken(s).value.epoch| <= 64 && ParseSyncToken(s).value.position < Pow10(15)
  {
    var dot := FirstDot(s);
    if i < dot {
      assert s[..dot][i] == s[i];
    } else if i > dot {
      assert s[dot + 1..][i - dot - 1] == s[i];
    }
    ReadBelow(s[dot + 1..], 15);
  }
}
