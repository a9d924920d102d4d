/** The state in which the service starts: one default ROOT user, and nothing else. */
module InitialState {
  import opened Common
  import opened SecurityObjects
  import opened UserStore
  import opened UserSafety
  import ApiKeys
  import Enrolment
  import Text
  import UserEffects

  const DEFAULT_ID: UserId := "11111111-0000-0000-6666-999999999999"

  function DefaultUser(email: string, password: string, now: u64): UserInfo {
    UserInfo(DEFAULT_ID, Text.ToLower(email), "Default User", "Default user should be deleted.", "", "", "", "", ROOT, false, false,
             true, false, true, password, [password], 0, 0, 0,
             LoginExtensions(MfaConfig(false, NO_METHOD), [], ""), [], now)
  }

  function DefaultWorld(email: string, password: string, now: u64): World {
    World(map[DEFAULT_ID := DefaultUser(email, password, now)], [DEFAULT_ID], map[], [], [], [])
  }

  /** The starting state meets what the theorems about runs ask of it. */
  lemma DefaultWorldIsSound(email: string, password: string, now: u64)
    ensures var w := DefaultWorld(email, password, now);
      && WellKeyed(w) && HasRoot(w) && Forest(w) && AllMfaWellFormed(w)
      && LinksAreForUsers(w) && UserEffects.AddressesDistinct(w) && Enrolment.NoSecondFactors(w) && ApiKeys.KeyInvariant(w) && ApiKeys.NoOrphans(w)
  {
    var w := DefaultWorld(email, password, now);
    Text.ToLowerIdempotent(email);
    assert DEFAULT_ID in w.users && w.users[DEFAULT_ID].userRole == ROOT;
    forall owner ensures ApiKeys.Tidy(KeysOf(w.keys, owner)) {
      assert KeysOf([], owner) == [];
    }
  }
}
