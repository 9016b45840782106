/** Deciding whether a profile can be exported, from the answer to the GET of
    the profile page (`validate_username`, main.py:13-38). The request itself
    is not modelled: its outcome is the input. */
module Profile {
  import opened Text

  /** The HTTP response to the profile-page request. */
  datatype Response = Response(status: int, text: string)

  /** What the profile request produced: a response, or a
      `requests.RequestException` (timeout, connection error, ...) with its
      rendered text. */
  datatype ProfileFetch = Received(response: Response) | RequestFailed(detail: string)

  /** The account status read off the response. */
  datatype Verdict = Available | Suspended | NotFound | Private | CheckFailed(detail: string)

  /** Markers looked for in the page body; the first two are matched against
      the lower-cased body, the third against the body as it is. */
  const SuspendedMarker := "account suspended"
  const MissingMarker := "doesn't exist"
  const ProtectedMarker := "These Tweets are protected"
  const NotFoundStatus := 404

  const AvailableMessage := "User exists and is available"
  const CheckErrorPrefix := "Error checking username: "

  /** The if-chain of `validate_username`, checks in the script's order:
      suspension, then absence (status 404 or the missing marker), then
      privacy, and only then success. */
  function Classify(fetch: ProfileFetch): Verdict {
    match fetch
    case RequestFailed(detail) => CheckFailed(detail)
    case Received(r) =>
      if Contains(Lower(r.text), SuspendedMarker) then Suspended
      else if r.status == NotFoundStatus || Contains(Lower(r.text), MissingMarker) then NotFound
      else if Contains(r.text, ProtectedMarker) then Private
      else Available
  }

  /** The line `validate_username` returns with each verdict. */
  function Message(v: Verdict): string {
    match v
    case Available => AvailableMessage
    case Suspended => "Account is suspended"
    case NotFound => "User not found. Please check the username."
    case Private => "Account is private"
    case CheckFailed(detail) => CheckErrorPrefix + detail
  }

  /** `validate_username`'s `(valid, message)` pair. The flag is raised
      exactly when the message is the success line, so the caller can never
      see a success flag with an error text or the reverse. */
  function ValidateUsername(fetch: ProfileFetch): (result: (bool, string))
    ensures result.0 <==> result.1 == AvailableMessage
    ensures fetch.RequestFailed? ==> result == (false, CheckErrorPrefix + fetch.detail)
  {
    var v := Classify(fetch);
    assert v != Available ==> Message(v) != AvailableMessage by {
      if v.CheckFailed? {
        assert Message(v)[0] == 'E' != AvailableMessage[0];
      }
    }
    (v == Available, Message(v))
  }

  /** Suspension is found in any letter case and wins over everything else,
      a 404 status included. */
  lemma SuspendedInAnyCase(status: int, text: string, marker: string)
    requires Lower(marker) == SuspendedMarker && Contains(text, marker)
    ensures Classify(Received(Response(status, text))) == Suspended
  {
    ContainsLower(text, marker);
  }

  /** "doesn't exist" is found in any letter case; unless the page also says
      the account is suspended, the verdict is NotFound whatever the status. */
  lemma MissingInAnyCase(status: int, text: string, marker: string)
    requires Lower(marker) == MissingMarker && Contains(text, marker)
    requires !Contains(Lower(text), SuspendedMarker)
    ensures Classify(Received(Response(status, text))) == NotFound
  {
    ContainsLower(text, marker);
  }

  /** A 404 status is NotFound even when the page carries the protected
      marker: absence is checked before privacy. */
  lemma NotFoundBeforePrivate(text: string)
    requires Contains(text, ProtectedMarker) && !Contains(Lower(text), SuspendedMarker)
    ensures Classify(Received(Response(NotFoundStatus, text))) == NotFound
  {
  }

  /** The account is reported available exactly when none of the four checks
      fires. */
  lemma AvailableOnlyWithoutMarkers(r: Response)
    ensures Classify(Received(r)) == Available <==>
      && !Contains(Lower(r.text), SuspendedMarker)
      && r.status != NotFoundStatus
      && !Contains(Lower(r.text), MissingMarker)
      && !Contains(r.text, ProtectedMarker)
  {
  }

  /** The account is reported private exactly when the privacy marker
      occurs as written and none of the earlier checks fires. */
  lemma PrivateExactlyWhenOnlyMarker(r: Response)
    ensures Classify(Received(r)) == Private <==>
      && !Contains(Lower(r.text), SuspendedMarker)
      && r.status != NotFoundStatus
      && !Contains(Lower(r.text), MissingMarker)
      && Contains(r.text, ProtectedMarker)
  {
  }

  /** Proof helper for the two marker examples below: a page without the
      letters `u` and `x` in any case carries neither of the lower-cased
      markers, so only the privacy check can fire. */
  lemma OnlyPrivacyCheckApplies(text: string)
    requires 'u' !in Lower(text) && 'x' !in Lower(text)
    ensures Classify(Received(Response(200, text))) ==
      if Contains(text, ProtectedMarker) then Private else Available
    ensures 'T' !in text ==> Classify(Received(Response(200, text))) == Available
  {
    MissingCharNotContained(Lower(text), SuspendedMarker, 4);
    MissingCharNotContained(Lower(text), MissingMarker, 9);
    if 'T' !in text {
      MissingCharNotContained(text, ProtectedMarker, 0);
    }
  }

  /** The privacy marker in lower case. */
  lemma ProtectedMarkerLowered()
    ensures Lower(ProtectedMarker) == "these tweets are protected"
  {
  }

  /** The privacy marker itself trips none of the earlier checks: a
      status-200 page that is exactly the marker is reported private. */
  lemma ProtectedMarkerRecognised(text: string)
    requires text == ProtectedMarker
    ensures Classify(Received(Response(200, text))) == Private
  {
    LowerLacks(text, 'u');
    LowerLacks(text, 'x');
    OnlyPrivacyCheckApplies(text);
    ContainsItself(text);
  }

  /** Unlike the other two markers, the privacy marker is matched case
      sensitively: the same sentence in lower case is not recognised and
      the account passes as available. */
  lemma ProtectedMarkerIsCaseSensitive(text: string)
    requires text == "these tweets are protected"
    ensures Lower(ProtectedMarker) == text
    ensures Classify(Received(Response(200, text))) == Available
  {
    ProtectedMarkerLowered();
    LowerLacks(text, 'u');
    LowerLacks(text, 'x');
    OnlyPrivacyCheckApplies(text);
  }
}
