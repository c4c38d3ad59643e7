/** The `user_logged_in` receiver that keeps one active session per user
    (ckfr_site/session_management.py). The session table is a sequence of
    rows whose stored data has already been decoded to the `_auth_user_id`
    entry, and the current time is a parameter. */
module Sessions {
  import opened Wrappers
  import opened Text

  /** A `django_session` row: its key, its expiry instant, and the
      `_auth_user_id` entry of its decoded data (`None` when absent or not a
      string). */
  datatype Session = Session(key: string, expireDate: int, authUserId: Option<string>)

  /** The row is deleted: it has not expired, it is not the current
      session, and it belongs to the user whose decimal id is `userId`. */
  predicate Doomed(s: Session, currentKey: string, userId: string, now: int) {
    s.expireDate >= now && s.key != currentKey && s.authUserId == Some(userId)
  }

  /** The rows that remain, in table order. */
  function Survivors(sessions: seq<Session>, currentKey: string, userId: string, now: int): (r: seq<Session>)
    ensures forall s :: s in r <==> s in sessions && !Doomed(s, currentKey, userId, now)
    ensures |r| <= |sessions|
  {
    if sessions == [] then []
    else
      var init, last := sessions[..|sessions| - 1], sessions[|sessions| - 1];
      assert forall s :: s in sessions <==> s in init || s == last by {
        assert sessions == init + [last];
      }
      var rest := Survivors(init, currentKey, userId, now);
      if Doomed(last, currentKey, userId, now) then rest else rest + [last]
  }

  lemma SurvivorsStep(sessions: seq<Session>, currentKey: string, userId: string, now: int, i: nat)
    requires i < |sessions|
    ensures Survivors(sessions[..i + 1], currentKey, userId, now) ==
      Survivors(sessions[..i], currentKey, userId, now) +
      (if Doomed(sessions[i], currentKey, userId, now) then [] else [sessions[i]])
  {
    assert sessions[..i + 1][..i] == sessions[..i];
  }

  /** `terminate_previous_sessions`: without a current session key nothing
      happens; otherwise every unexpired session, other than the current
      one, whose user id is `str(user.pk)` is deleted. */
  method TerminatePreviousSessions(sessions: seq<Session>, currentKey: Option<string>, userPk: nat, now: int)
    returns (result: seq<Session>)
    ensures currentKey.None? ==> result == sessions
    ensures currentKey.Some? ==> result == Survivors(sessions, currentKey.value, NatToDecimal(userPk), now)
  {
    if currentKey.None? {
      return sessions;
    }
    var userId := NatToDecimal(userPk);
    result := [];
    var i := 0;
    while i < |sessions|
      invariant 0 <= i <= |sessions|
      invariant result == Survivors(sessions[..i], currentKey.value, userId, now)
    {
      SurvivorsStep(sessions, currentKey.value, userId, now, i);
      var s := sessions[i];
      if !(s.expireDate >= now && s.key != currentKey.value && s.authUserId == Some(userId)) {
        result := result + [s];
      }
      i := i + 1;
    }
    assert sessions[..|sessions|] == sessions;
  }

  /** The promises of the receiver, for a login with a session key:
      the current session and the sessions of other users or already
      expired are kept, and afterwards the user has no unexpired session
      besides the current one. */
  lemma SurvivorsPromise(sessions: seq<Session>, currentKey: string, userPk: nat, now: int)
    ensures var r := Survivors(sessions, currentKey, NatToDecimal(userPk), now);
      && (forall s :: s in sessions && s.key == currentKey ==> s in r)
      && (forall s :: s in sessions && s.authUserId != Some(NatToDecimal(userPk)) ==> s in r)
      && (forall s :: s in sessions && s.expireDate < now ==> s in r)
      && (forall s :: s in r && s.expireDate >= now && s.authUserId == Some(NatToDecimal(userPk)) ==>
            s.key == currentKey)
      && (forall s :: s in r ==> s in sessions)
  {
  }

  /** The survivors keep their relative order: the rows surviving from two
      consecutive parts of the table are those of the first part followed
      by those of the second. */
  lemma {:induction false} SurvivorsConcat(a: seq<Session>, b: seq<Session>, currentKey: string, userId: string, now: int)
    ensures Survivors(a + b, currentKey, userId, now) ==
            Survivors(a, currentKey, userId, now) + Survivors(b, currentKey, userId, now)
    decreases |b|
  {
    if b == [] {
      assert a + b == a;
    } else {
      var init, last := b[..|b| - 1], b[|b| - 1];
      assert (a + b)[..|a + b| - 1] == a + init && (a + b)[|a + b| - 1] == last;
      SurvivorsConcat(a, init, currentKey, userId, now);
    }
  }

  /** A second login with the same session deletes nothing more. */
  lemma {:induction false} SurvivorsIdempotent(sessions: seq<Session>, currentKey: string, userId: string, now: int)
    ensures Survivors(Survivors(sessions, currentKey, userId, now), currentKey, userId, now) ==
            Survivors(sessions, currentKey, userId, now)
  {
    if sessions != [] {
      var init, last := sessions[..|sessions| - 1], sessions[|sessions| - 1];
      SurvivorsIdempotent(init, currentKey, userId, now);
      var rest := Survivors(init, currentKey, userId, now);
      if !Doomed(last, currentKey, userId, now) {
        assert (rest + [last])[..|rest|] == rest;
      }
    }
  }
}
