/**
 Passwords. A stored password is "salt|hex", the hex digest of salt, password and user name; the last
 few are kept so that they are not used again. One digest engine is shared by all operations.
 */
module AuthService {
  import opened Common
  import opened SecurityObjects
  import Text

  /**
   The hex digest of a text, the number of old passwords to keep, and the password rule. The comparison
   of a history entry's first token with a digest does not fix which of the two it evaluates first;
   `indexFirst` says that it is the token, which raises when there is none.
   */
  datatype Config = Config(hash: string -> string, howManyOldPasswords: nat, rule: string -> bool, indexFirst: bool)

  ghost predicate Injective(hash: string -> string) {
    forall a, b :: hash(a) == hash(b) ==> a == b
  }

  /** Hex digests are not empty and never contain the separator. */
  ghost predicate HexDigests(hash: string -> string) {
    forall a :: hash(a) != "" && '|' !in hash(a)
  }

  /** The engine collects text; asking for the digest starts it afresh. */
  class Sha2Engine {
    const hash: string -> string
    var buffer: string

    constructor (hash: string -> string)
      ensures this.hash == hash && buffer == ""
    {
      this.hash := hash;
      buffer := "";
    }

    method Update(text: string)
      modifies this
      ensures buffer == old(buffer) + text
    {
      buffer := buffer + text;
    }

    method Digest() returns (hex: string)
      modifies this
      ensures hex == hash(old(buffer)) && buffer == ""
    {
      hex := hash(buffer);
      buffer := "";
    }
  }

  // ---------- What each operation decides ----------
  // `left` is the text that the engine still holds when the operation begins.

  function Digest(cfg: Config, left: string, text: string): (hex: string)
    ensures left == "" ==> hex == cfg.hash(text)
  {
    assert left == "" ==> left + text == text;
    cfg.hash(left + text)
  }

  function UserName(name: string): string {
    Text.Trim(Text.ToLower(name))
  }

  function Seal(cfg: Config, left: string, userName: string, password: string, salt: string): string {
    salt + "|" + Digest(cfg, left, salt + password + UserName(userName))
  }

  predicate PasswordMatches(cfg: Config, left: string, userName: string, password: string, stored: string) {
    var tokens := Text.Tokens(stored, '|');
    if |tokens| == 1 then tokens[0] == Digest(cfg, left, password + UserName(userName))
    else |tokens| == 2 && tokens[1] == Digest(cfg, left, tokens[0] + password + UserName(userName))
  }

  /** A stored text in neither of the two forms is refused without asking for a digest. */
  function LeftByCheck(left: string, stored: string): string {
    if |Text.Tokens(stored, '|')| in {1, 2} then "" else left
  }

  datatype Verdict = Fresh | Reused | Fault

  predicate Salted(entry: string) {
    |Text.Tokens(entry, '|')| == 2
  }

  /** The entry is salted and carries this digest. */
  predicate Carries(entry: string, digest: string) {
    Salted(entry) && Text.Tokens(entry, '|')[1] == digest
  }

  /** Some of the first `n` entries is salted, so that a digest is taken on the way past them. */
  predicate AnySalted(history: seq<string>, n: nat)
    requires n <= |history|
  {
    exists k :: 0 <= k < n && Salted(history[k])
  }

  /** Entry `j` carries the digest of the text; the first digest taken is the one that meets what was left. */
  predicate Hit(cfg: Config, left: string, history: seq<string>, j: nat, text: string)
    requires j < |history|
  {
    Carries(history[j], Digest(cfg, if AnySalted(history, j) then "" else left, text))
  }

  predicate SomeDigest(cfg: Config, left: string, history: seq<string>, text: string) {
    exists j :: 0 <= j < |history| && Hit(cfg, left, history, j, text)
  }

  /** What entry `i` of the history says about a new password; an empty entry raises. */
  function EntryVerdict(cfg: Config, left: string, history: seq<string>, i: nat, password: string, email: string): Verdict
    requires i < |history|
  {
    var tokens := Text.Tokens(history[i], '|');
    if |tokens| == 2 then
      if SomeDigest(cfg, left, history, tokens[0] + password + email) then Reused else Fresh
    else if tokens == [] then Fault
    else if tokens[0] == Digest(cfg, left, password + email) then Reused
    else Fresh
  }

  /** The history is read in order up to the first entry that decides; every entry that does not raise empties the engine. */
  function HistoryVerdict(cfg: Config, left: string, history: seq<string>, i: nat, password: string, email: string): Verdict
    requires i <= |history|
    decreases |history| - i
  {
    if i == |history| then Fresh
    else
      var verdict := EntryVerdict(cfg, left, history, i, password, email);
      if verdict != Fresh then verdict else HistoryVerdict(cfg, "", history, i + 1, password, email)
  }

  /** What the engine holds after a password change: text only if it raised before it took the digest. */
  function LeftByChange(cfg: Config, left: string, u: UserInfo, password: string): string {
    var email := Text.ToLower(u.email);
    if !cfg.indexFirst || HistoryVerdict(cfg, left, u.lastPasswords, 0, password, email) != Fault then ""
    else (if u.lastPasswords[0] == "" then left else "") + password + email
  }

  function Remember(cfg: Config, history: seq<string>, sealed: string): seq<string> {
    (if |history| == cfg.howManyOldPasswords && history != [] then history[1..] else history) + [sealed]
  }

  /** The record after an accepted password change. What was left gets into the seal only when there was no history to read. */
  function WithPassword(cfg: Config, left: string, u: UserInfo, password: string, salt: string): UserInfo {
    var email := Text.ToLower(u.email);
    var sealed := Seal(cfg, if u.lastPasswords == [] then left else "", email, password, salt);
    u.(email := email, lastPasswords := Remember(cfg, u.lastPasswords, sealed), currentPassword := sealed,
       changePassword := false)
  }

  datatype Reason =
    | SUCCESS | ACCOUNT_SUSPENDED | USERNAME_PENDING_VERIFICATION | INVALID_CREDENTIALS
    | PASSWORD_CHANGE_REQUIRED | PASSWORD_INVALID | PASSWORD_ALREADY_USED
    | RAISED  // an exception leaves the method

  /** The users by e-mail address. */
  type Users = map<string, UserInfo>

  predicate ByEmail(users: Users) {
    forall e :: e in users ==> users[e].email == e
  }

  datatype LoginResult = LoginResult(reason: Reason, users: Users, left: string)

  /**
   The checks of a login, in their order. `stored` is the verdict of the database on the update, which
   the login does not look at.
   */
  function Login(cfg: Config, left: string, users: Users, name: string, password: string, newPassword: string,
                 salt: string, now: u64, stored: bool): LoginResult {
    var key := Text.ToLower(name);
    if key !in users then LoginResult(INVALID_CREDENTIALS, users, left)
    else
      var u := users[key];
      if u.suspended then LoginResult(ACCOUNT_SUSPENDED, users, left)
      else if u.waitingForEmailCheck then LoginResult(USERNAME_PENDING_VERIFICATION, users, left)
      else if !PasswordMatches(cfg, left, key, password, u.currentPassword) then
        LoginResult(INVALID_CREDENTIALS, users, LeftByCheck(left, u.currentPassword))
      else if newPassword == "" then
        LoginResult(if u.changePassword then PASSWORD_CHANGE_REQUIRED else SUCCESS, users, "")
      else if !cfg.rule(newPassword) then LoginResult(PASSWORD_INVALID, users, "")
      else match HistoryVerdict(cfg, "", u.lastPasswords, 0, newPassword, Text.ToLower(u.email))
        case Fresh =>
          var u' := WithPassword(cfg, "", u, newPassword, salt).(lastPasswordChange := now, modified := now);
          LoginResult(SUCCESS, if stored then users[key := u'] else users, "")
        case Reused => LoginResult(PASSWORD_ALREADY_USED, users, "")
        case Fault => LoginResult(RAISED, users, LeftByChange(cfg, "", u, newPassword))
  }

  class Service {
    const cfg: Config
    const sha2: Sha2Engine
    var users: Users

    ghost predicate Valid()
      reads this, sha2
    {
      sha2.hash == cfg.hash && cfg.howManyOldPasswords >= 1 && ByEmail(users)
    }

    constructor (cfg: Config)
      requires cfg.howManyOldPasswords >= 1
      ensures Valid() && fresh(sha2) && this.cfg == cfg && sha2.buffer == "" && users == map[]
    {
      this.cfg := cfg;
      sha2 := new Sha2Engine(cfg.hash);
      users := map[];
    }

    method ComputeNewPasswordHash(userName: string, password: string, salt: string) returns (sealed: string)
      requires Valid()
      modifies sha2
      ensures sha2.buffer == "" && sealed == Seal(cfg, old(sha2.buffer), userName, password, salt)
    {
      sha2.Update(salt + password + UserName(userName));
      var hex := sha2.Digest();
      sealed := salt + "|" + hex;
    }

    method ValidatePasswordHash(userName: string, password: string, stored: string) returns (ok: bool)
      requires Valid()
      modifies sha2
      ensures ok == PasswordMatches(cfg, old(sha2.buffer), userName, password, stored)
      ensures sha2.buffer == LeftByCheck(old(sha2.buffer), stored)
    {
      var tokens := Text.Tokens(stored, '|');
      if |tokens| == 1 {
        sha2.Update(password + UserName(userName));
        var hex := sha2.Digest();
        return tokens[0] == hex;
      } else if |tokens| == 2 {
        sha2.Update(tokens[0] + password + UserName(userName));
        var hex := sha2.Digest();
        return tokens[1] == hex;
      }
      return false;
    }

    /** The inner loop over the history, for one salt. */
    method MatchesSomeEntry(history: seq<string>, text: string) returns (found: bool)
      requires Valid()
      modifies sha2
      ensures found == SomeDigest(cfg, old(sha2.buffer), history, text)
      ensures sha2.buffer == if AnySalted(history, |history|) then "" else old(sha2.buffer)
    {
      hide Text.Tokens, AnySalted, Hit;
      ghost var left := sha2.buffer;
      NoneSalted(history);
      for j := 0 to |history|
        invariant sha2.buffer == if AnySalted(history, j) then "" else left
        invariant forall k :: 0 <= k < j ==> !Hit(cfg, left, history, k, text)
      {
        AnySaltedStep(history, j);
        HitIff(cfg, left, history, j, text);
        var tokens := Text.Tokens(history[j], '|');
        if |tokens| == 2 {
          sha2.Update(text);
          var hex := sha2.Digest();
          if tokens[1] == hex {
            SaltedStays(history, j);
            return true;
          }
        }
      }
      return false;
    }

    method SetPassword(newPassword: string, u: UserInfo, salt: string) returns (verdict: Verdict, u': UserInfo)
      requires Valid()
      modifies sha2
      ensures verdict == HistoryVerdict(cfg, old(sha2.buffer), u.lastPasswords, 0, newPassword, Text.ToLower(u.email))
      ensures u' == if verdict == Fresh then WithPassword(cfg, old(sha2.buffer), u, newPassword, salt)
                    else u.(email := Text.ToLower(u.email))
      ensures sha2.buffer == LeftByChange(cfg, old(sha2.buffer), u, newPassword)
    {
      hide Seal, SomeDigest, AnySalted, Remember, Text.ToLower, Text.Tokens, UserName;
      ghost var left := sha2.buffer;
      u' := u.(email := Text.ToLower(u.email));
      var history := u.lastPasswords;
      for i := 0 to |history|
        invariant sha2.buffer == if i == 0 then left else ""
        invariant i > 0 ==> history[0] != ""
        invariant HistoryVerdict(cfg, left, history, 0, newPassword, u'.email) ==
                  HistoryVerdict(cfg, if i == 0 then left else "", history, i, newPassword, u'.email)
      {
        NoTokensIffEmpty(history[i]);
        var tokens := Text.Tokens(history[i], '|');
        if |tokens| == 2 {
          SaltedStays(history, i);
          var reused := MatchesSomeEntry(history, tokens[0] + newPassword + u'.email);
          if reused {
            return Reused, u';
          }
        } else {
          sha2.Update(newPassword + u'.email);
          if cfg.indexFirst && tokens == [] {
            assert sha2.buffer == (if i == 0 then left else "") + newPassword + u'.email;
            return Fault, u';
          }
          var hex := sha2.Digest();
          if tokens == [] {
            return Fault, u';
          }
          if tokens[0] == hex {
            return Reused, u';
          }
        }
      }
      if |history| == cfg.howManyOldPasswords {
        history := history[1..];
      }
      LowerTwice(u.email);
      var sealed := ComputeNewPasswordHash(u'.email, newPassword, salt);
      u' := u'.(lastPasswords := history + [sealed], currentPassword := sealed, changePassword := false);
      assert u' == WithPassword(cfg, left, u, newPassword, salt) by {
        RememberIsPush(cfg, u.lastPasswords, sealed);
      }
      return Fresh, u';
    }

    method Authorize(name: string, password: string, newPassword: string, salt: string, now: u64, stored: bool)
      returns (reason: Reason, mustChange: bool, errorCode: nat)
      requires Valid()
      modifies this, sha2
      ensures Valid()
      ensures LoginResult(reason, users, sha2.buffer) ==
        Login(cfg, old(sha2.buffer), old(users), name, password, newPassword, salt, now, stored)
      ensures mustChange == (reason == PASSWORD_CHANGE_REQUIRED)
      ensures errorCode == if reason == PASSWORD_ALREADY_USED then 1 else 0
    {
      hide PasswordMatches, HistoryVerdict, Text.ToLower, Seal, LeftByChange;
      mustChange, errorCode := false, 0;
      var userName := Text.ToLower(name);
      if userName !in users {
        return INVALID_CREDENTIALS, mustChange, errorCode;
      }
      var u := users[userName];
      if u.suspended {
        return ACCOUNT_SUSPENDED, mustChange, errorCode;
      }
      if u.waitingForEmailCheck {
        return USERNAME_PENDING_VERIFICATION, mustChange, errorCode;
      }
      CheckedIsClean(cfg, sha2.buffer, userName, password, u.currentPassword);
      var good := ValidatePasswordHash(userName, password, u.currentPassword);
      if !good {
        return INVALID_CREDENTIALS, mustChange, errorCode;
      }
      if u.changePassword && newPassword == "" {
        return PASSWORD_CHANGE_REQUIRED, true, errorCode;
      }
      if newPassword != "" && !cfg.rule(newPassword) {
        return PASSWORD_INVALID, mustChange, errorCode;
      }
      if u.changePassword || newPassword != "" {
        LeftUnlessRaised(cfg, "", u, newPassword);
        var verdict, u' := SetPassword(newPassword, u, salt);
        if verdict == Fault {
          return RAISED, mustChange, errorCode;
        }
        if verdict == Reused {
          return PASSWORD_ALREADY_USED, mustChange, 1;
        }
        u' := u'.(lastPasswordChange := now, changePassword := false, modified := now);
        LowerTwice(name);
        if stored {
          users := users[userName := u'];
        }
      }
      return SUCCESS, mustChange, errorCode;
    }
  }

  lemma NoneSalted(history: seq<string>)
    ensures !AnySalted(history, 0)
  {
  }

  lemma AnySaltedStep(history: seq<string>, j: nat)
    requires j < |history|
    ensures AnySalted(history, j + 1) <==> AnySalted(history, j) || |Text.Tokens(history[j], '|')| == 2
  {
  }

  lemma SaltedStays(history: seq<string>, j: nat)
    requires j < |history| && |Text.Tokens(history[j], '|')| == 2
    ensures AnySalted(history, |history|)
  {
    assert Salted(history[j]);
  }

  lemma HitIff(cfg: Config, left: string, history: seq<string>, j: nat, text: string)
    requires j < |history|
    ensures Hit(cfg, left, history, j, text) <==>
      var tokens := Text.Tokens(history[j], '|');
      |tokens| == 2 && tokens[1] == cfg.hash((if AnySalted(history, j) then "" else left) + text)
  {
  }

  lemma NoTokensIffEmpty(entry: string)
    ensures Text.Tokens(entry, '|') == [] <==> entry == ""
  {
  }

  lemma RememberIsPush(cfg: Config, history: seq<string>, sealed: string)
    requires cfg.howManyOldPasswords >= 1
    ensures Remember(cfg, history, sealed) ==
      (if |history| == cfg.howManyOldPasswords then history[1..] else history) + [sealed]
  {
  }

  /** A password that matches was compared with a digest, which emptied the engine. */
  lemma CheckedIsClean(cfg: Config, left: string, userName: string, password: string, stored: string)
    ensures PasswordMatches(cfg, left, userName, password, stored) ==> LeftByCheck(left, stored) == ""
  {
  }

  lemma LeftUnlessRaised(cfg: Config, left: string, u: UserInfo, password: string)
    ensures LeftByChange(cfg, left, u, password) == "" ||
      HistoryVerdict(cfg, left, u.lastPasswords, 0, password, Text.ToLower(u.email)) == Fault
  {
  }

  lemma LowerTwice(s: string)
    ensures Text.ToLower(Text.ToLower(s)) == Text.ToLower(s)
  {
    Text.ToLowerIdempotent(s);
  }

  // ---------- A sealed password opens for that password only ----------

  lemma SealedTokens(cfg: Config, left: string, userName: string, password: string, salt: string)
    requires HexDigests(cfg.hash) && '|' !in salt
    ensures Text.Tokens(Seal(cfg, left, userName, password, salt), '|') ==
      [salt, Digest(cfg, left, salt + password + UserName(userName))]
  {
    var hex := Digest(cfg, left, salt + password + UserName(userName));
    Text.PiecesOfJoin([salt, hex], '|');
    assert Text.Join([salt, hex], '|') == salt + ['|'] + hex;
  }

  lemma SuffixCancels(s: string, t: string, e: string)
    ensures s + e == t + e <==> s == t
  {
    if s + e == t + e {
      assert |s| == |t|;
      assert s == (s + e)[..|s|] && t == (t + e)[..|t|];
    }
  }

  lemma PrefixCancels(x: string, s: string, t: string)
    ensures x + s == x + t <==> s == t
  {
    if x + s == x + t {
      assert s == (x + s)[|x|..] && t == (x + t)[|x|..];
    }
  }

  lemma DigestsAgreeIff(cfg: Config, left: string, text: string, left': string, text': string)
    requires Injective(cfg.hash)
    ensures Digest(cfg, left, text) == Digest(cfg, left', text') <==> left + text == left' + text'
  {
  }

  /**
   Whatever the engine held when a password was sealed (`left`) and when one is checked (`left'`): the
   check succeeds exactly when the texts in front of the user name are the same.
   */
  lemma SealOpensIff(cfg: Config, left: string, left': string, userName: string, password: string, salt: string, other: string)
    requires Injective(cfg.hash) && HexDigests(cfg.hash) && '|' !in salt
    ensures PasswordMatches(cfg, left', userName, other, Seal(cfg, left, userName, password, salt)) <==>
      left' + salt + other == left + salt + password
  {
    var e := UserName(userName);
    SealedTokens(cfg, left, userName, password, salt);
    DigestsAgreeIff(cfg, left', salt + other + e, left, salt + password + e);
    assert left' + (salt + other + e) == (left' + salt + other) + e;
    assert left + (salt + password + e) == (left + salt + password) + e;
    SuffixCancels(left' + salt + other, left + salt + password, e);
  }

  /** "salt|hex" validates a password exactly when it is the one it was made from. */
  lemma SealOpensOnlyFor(cfg: Config, userName: string, password: string, salt: string, other: string)
    requires Injective(cfg.hash) && HexDigests(cfg.hash) && '|' !in salt
    ensures PasswordMatches(cfg, "", userName, other, Seal(cfg, "", userName, password, salt)) <==> other == password
  {
    SealOpensIff(cfg, "", "", userName, password, salt, other);
    assert "" + salt + other == salt + other && "" + salt + password == salt + password;
    PrefixCancels(salt, other, password);
  }

  /** The right password is recognized exactly when seal and check both start from an empty engine, or as if they had. */
  lemma RightPasswordIff(cfg: Config, left: string, left': string, userName: string, password: string, salt: string)
    requires Injective(cfg.hash) && HexDigests(cfg.hash) && '|' !in salt
    ensures PasswordMatches(cfg, left', userName, password, Seal(cfg, left, userName, password, salt)) <==> left == left'
  {
    SealOpensIff(cfg, left, left', userName, password, salt, password);
    assert left' + salt + password == left' + (salt + password) && left + salt + password == left + (salt + password);
    SuffixCancels(left', left, salt + password);
  }

  /**
   A login with a new password, from any state of the engine: if it succeeds and the record is stored,
   the next login of that user succeeds with that password and with no other.
   */
  lemma NewPasswordIsThePassword(cfg: Config, left: string, users: Users, name: string, password: string, newPassword: string,
                                 salt: string, now: u64, other: string, salt': string, now': u64, stored: bool)
    requires Injective(cfg.hash) && HexDigests(cfg.hash) && '|' !in salt && ByEmail(users)
    requires newPassword != "" && Login(cfg, left, users, name, password, newPassword, salt, now, true).reason == SUCCESS
    ensures var first := Login(cfg, left, users, name, password, newPassword, salt, now, true);
      && first.left == ""
      && ByEmail(first.users)
      && Login(cfg, first.left, first.users, name, other, "", salt', now', stored).reason ==
           if other == newPassword then SUCCESS else INVALID_CREDENTIALS
  {
    var key := Text.ToLower(name);
    LowerTwice(name);
    SealOpensOnlyFor(cfg, key, newPassword, salt, other);
    assert Seal(cfg, if users[key].lastPasswords == [] then "" else "", key, newPassword, salt) ==
           Seal(cfg, "", key, newPassword, salt);
    hide Seal, PasswordMatches, HistoryVerdict, Text.ToLower, Injective, HexDigests, LeftByCheck, LeftByChange;
  }

  // ---------- Who gets in ----------

  /**
   What a login of a known account with password `p` answers, from an empty engine, whichever password is
   given: who is suspended or still to be checked does not get in, nor does anybody with another
   password; who must change the password has to name a new one; and a new one has to meet the rule and
   to pass the history.
   */
  lemma LoginAnswers(cfg: Config, users: Users, name: string, p: string, salt: string, password: string, newPassword: string,
                     salt': string, now: u64, stored: bool)
    requires Injective(cfg.hash) && HexDigests(cfg.hash) && '|' !in salt
    requires var key := Text.ToLower(name); key in users && users[key].currentPassword == Seal(cfg, "", key, p, salt)
    ensures var u, reason := users[Text.ToLower(name)],
                             Login(cfg, "", users, name, password, newPassword, salt', now, stored).reason;
      var in_ := !u.suspended && !u.waitingForEmailCheck && password == p;
      var verdict := HistoryVerdict(cfg, "", u.lastPasswords, 0, newPassword, Text.ToLower(u.email));
      && (reason == ACCOUNT_SUSPENDED <==> u.suspended)
      && (reason == USERNAME_PENDING_VERIFICATION <==> !u.suspended && u.waitingForEmailCheck)
      && (reason == INVALID_CREDENTIALS <==> !u.suspended && !u.waitingForEmailCheck && password != p)
      && (reason == PASSWORD_CHANGE_REQUIRED <==> in_ && u.changePassword && newPassword == "")
      && (reason == PASSWORD_INVALID <==> in_ && newPassword != "" && !cfg.rule(newPassword))
      && (reason == PASSWORD_ALREADY_USED <==> in_ && newPassword != "" && cfg.rule(newPassword) && verdict == Reused)
      && (reason == RAISED <==> in_ && newPassword != "" && cfg.rule(newPassword) && verdict == Fault)
      && (reason == SUCCESS <==>
            in_ && if newPassword == "" then !u.changePassword else cfg.rule(newPassword) && verdict == Fresh)
  {
    SealOpensOnlyFor(cfg, Text.ToLower(name), p, salt, password);
    hide Seal, PasswordMatches, HistoryVerdict, Text.ToLower, Injective, HexDigests, LeftByCheck, LeftByChange, WithPassword;
  }

  /** An address without an account is refused like a wrong password. */
  lemma UnknownAddressIsRefused(cfg: Config, left: string, users: Users, name: string, password: string, newPassword: string,
                                salt: string, now: u64, stored: bool)
    requires Text.ToLower(name) !in users
    ensures Login(cfg, left, users, name, password, newPassword, salt, now, stored) ==
      LoginResult(INVALID_CREDENTIALS, users, left)
  {
    hide Text.ToLower;
  }

  /**
   A login changes no account but its own, and that only when it sets a password: then the password, the
   history, which gains the new seal, and the two time stamps.
   */
  lemma LoginLeaves(cfg: Config, left: string, users: Users, name: string, password: string, newPassword: string,
                    salt: string, now: u64, stored: bool)
    requires ByEmail(users)
    ensures var key, result := Text.ToLower(name), Login(cfg, left, users, name, password, newPassword, salt, now, stored);
      result.users ==
        if result.reason == SUCCESS && newPassword != "" && stored then
          var u, sealed := users[key], Seal(cfg, "", key, newPassword, salt);
          users[key := u.(
            currentPassword := sealed, lastPasswords := Remember(cfg, u.lastPasswords, sealed), changePassword := false,
            lastPasswordChange := now, modified := now)]
        else users
  {
    var key := Text.ToLower(name);
    LowerTwice(name);
    if key in users {
      assert Seal(cfg, if users[key].lastPasswords == [] then "" else "", key, newPassword, salt) ==
             Seal(cfg, "", key, newPassword, salt);
    }
    hide Seal, PasswordMatches, HistoryVerdict, Text.ToLower, LeftByCheck, LeftByChange, Remember;
  }

  /**
   The whole of a login with a new password, for an account whose history holds the seals of `accepted`
   under salts of one length: it succeeds exactly if the account is in good standing, the password is
   right, and the new one meets the rule and is none of those; the history then holds the seals of the
   last ones and of the new one.
   */
  lemma LoginSetsPassword(cfg: Config, users: Users, name: string, p: string, accepted: seq<Attempt>, length: nat,
                          password: string, next: Attempt, now: u64)
    requires Injective(cfg.hash) && HexDigests(cfg.hash) && cfg.howManyOldPasswords >= 1 && ByEmail(users)
    requires GoodSalts(accepted, length) && 0 < |accepted| <= cfg.howManyOldPasswords && next.password != ""
    requires var key := Text.ToLower(name);
      && GoodEmail(key) && key in users && p == Last(accepted).password
      && users[key].currentPassword == Last(Sealed(cfg, key, accepted)) && users[key].lastPasswords == Sealed(cfg, key, accepted)
    ensures var key := Text.ToLower(name);
      var u, result := users[key], Login(cfg, "", users, name, password, next.password, next.salt, now, true);
      && (result.reason == SUCCESS <==>
            !u.suspended && !u.waitingForEmailCheck && password == p && cfg.rule(next.password) &&
            forall i :: 0 <= i < |accepted| ==> accepted[i].password != next.password)
      && key in result.users
      && (result.reason == SUCCESS ==>
            result.users[key].lastPasswords == Sealed(cfg, key, Recent(accepted + [next], cfg.howManyOldPasswords)))
  {
    var key := Text.ToLower(name);
    LoginAnswers(cfg, users, name, p, Last(accepted).salt, password, next.password, next.salt, now, true);
    LoginLeaves(cfg, "", users, name, password, next.password, next.salt, now, true);
    ReusedIffUsed(cfg, key, accepted, length, next.password);
    RememberIsRecent(cfg, key, accepted, next);
    assert Recent(accepted, cfg.howManyOldPasswords) == accepted;
    hide Login, HistoryVerdict, Seal, Injective, HexDigests, Remember, Recent, Text.ToLower, GoodSalts;
  }

  /** A password stored in the older form, a bare digest of password and user name, opens for that password only. */
  lemma BareDigestOpensOnlyFor(cfg: Config, userName: string, password: string, other: string)
    requires Injective(cfg.hash) && HexDigests(cfg.hash)
    ensures PasswordMatches(cfg, "", userName, other, cfg.hash(password + UserName(userName))) <==> other == password
  {
    var e := UserName(userName);
    BareTokens(cfg.hash(password + e));
    DigestsAgreeIff(cfg, "", other + e, "", password + e);
    assert "" + (other + e) == other + e && "" + (password + e) == password + e;
    SuffixCancels(other, password, e);
  }

  lemma BareTokens(text: string)
    requires text != "" && '|' !in text
    ensures Text.Tokens(text, '|') == [text]
  {
    Text.PiecesOfJoin([text], '|');
  }

  /** An entry in the older form rejects the password it was made from, and by itself no other. */
  lemma BareEntryRejectsOnly(cfg: Config, email: string, password: string, other: string)
    requires Injective(cfg.hash) && HexDigests(cfg.hash)
    ensures HistoryVerdict(cfg, "", [cfg.hash(password + email)], 0, other, email) == if other == password then Reused else Fresh
  {
    var history := [cfg.hash(password + email)];
    BareTokens(history[0]);
    DigestsAgreeIff(cfg, "", other + email, "", password + email);
    assert "" + (other + email) == other + email && "" + (password + email) == password + email;
    SuffixCancels(other, password, email);
    assert HistoryVerdict(cfg, "", history, 1, other, email) == Fresh;
  }

  /** Capitals, and blanks around the user name, make no difference to a check. */
  lemma BlanksAndCapitalsDoNotMatter(cfg: Config, password: string, salt: string)
    requires Injective(cfg.hash) && HexDigests(cfg.hash) && '|' !in salt
    ensures PasswordMatches(cfg, "", " A@B ", password, Seal(cfg, "", "a@b", password, salt))
  {
    BlankAndCapitalName();
    SealOpensOnlyFor(cfg, "a@b", password, salt, password);
    hide Seal, Injective, HexDigests;
  }

  lemma BlankAndCapitalName()
    ensures UserName(" A@B ") == UserName("a@b") == "a@b"
  {
    assert Text.ToLower(" A@B ") == " a@b " && Text.ToLower("a@b") == "a@b";
    assert Text.TrimLeft(" a@b ") == "a@b " by { assert " a@b "[1..] == "a@b "; }
    assert Text.TrimRight("a@b ") == "a@b" by { assert "a@b "[..3] == "a@b"; }
  }

  lemma FaultIffEmpty(cfg: Config, left: string, history: seq<string>, i: nat, password: string, email: string)
    requires i < |history|
    ensures EntryVerdict(cfg, left, history, i, password, email) == Fault <==> history[i] == ""
  {
  }

  /** Entry `j` neither rejects nor raises when the history is read from `i` on. */
  predicate Passes(cfg: Config, left: string, history: seq<string>, i: nat, j: nat, password: string, email: string)
    requires j < |history|
  {
    EntryVerdict(cfg, if i == j then left else "", history, j, password, email) == Fresh
  }

  /** Entry `k` is empty, and reading from `i` on gets that far. */
  predicate EmptyReached(cfg: Config, left: string, history: seq<string>, i: nat, k: nat, password: string, email: string)
    requires k < |history|
  {
    history[k] == "" && forall j :: i <= j < k ==> Passes(cfg, left, history, i, j, password, email)
  }

  lemma EmptyReachedStep(cfg: Config, left: string, history: seq<string>, i: nat, n: nat, k: nat, password: string, email: string)
    requires n == i + 1 <= k < |history|
    ensures EmptyReached(cfg, left, history, i, k, password, email) <==>
      EntryVerdict(cfg, left, history, i, password, email) == Fresh && EmptyReached(cfg, "", history, n, k, password, email)
  {
    hide EntryVerdict;
    forall j | n <= j < k
      ensures Passes(cfg, left, history, i, j, password, email) == Passes(cfg, "", history, n, j, password, email)
    {
    }
    assert Passes(cfg, left, history, i, i, password, email) <==>
      EntryVerdict(cfg, left, history, i, password, email) == Fresh;
  }

  /** Setting a password raises exactly when an empty entry is met before any entry that rejects. */
  lemma {:induction false} RaisesIffEmptyEntryFirst(cfg: Config, left: string, history: seq<string>, i: nat,
                                                    password: string, email: string)
    requires i <= |history|
    ensures HistoryVerdict(cfg, left, history, i, password, email) == Fault <==>
      exists k :: i <= k < |history| && EmptyReached(cfg, left, history, i, k, password, email)
    decreases |history| - i
  {
    if i < |history| {
      RaisesIffEmptyEntryFirst(cfg, "", history, i + 1, password, email);
      FaultIffEmpty(cfg, left, history, i, password, email);
      var n := i + 1;
      assert EmptyReached(cfg, left, history, i, i, password, email) <==> history[i] == "";
      hide EntryVerdict, EmptyReached;
      forall k | n <= k < |history|
        ensures EmptyReached(cfg, left, history, i, k, password, email) <==>
          EntryVerdict(cfg, left, history, i, password, email) == Fresh && EmptyReached(cfg, "", history, n, k, password, email)
      {
        EmptyReachedStep(cfg, left, history, i, n, k, password, email);
      }
      if k :| i <= k < |history| && EmptyReached(cfg, left, history, i, k, password, email) {
        assert k == i || EmptyReached(cfg, "", history, n, k, password, email);
      }
      if EntryVerdict(cfg, left, history, i, password, email) == Fresh {
        if k :| n <= k < |history| && EmptyReached(cfg, "", history, n, k, password, email) {
          assert EmptyReached(cfg, left, history, i, k, password, email);
        }
      }
    }
  }

  // ---------- The shared engine over runs of operations ----------

  datatype Op =
    | Compute(userName: string, password: string, salt: string)
    | Check(userName: string, password: string, stored: string)
    | Change(user: UserInfo, newPassword: string, salt: string)

  /** What the engine holds after one operation. */
  function LeftBy(cfg: Config, left: string, op: Op): string {
    match op
    case Compute(_, _, _) => ""
    case Check(_, _, stored) => LeftByCheck(left, stored)
    case Change(u, newPassword, _) => LeftByChange(cfg, left, u, newPassword)
  }

  function LeftAfter(cfg: Config, run: seq<Op>): string {
    if run == [] then "" else LeftBy(cfg, LeftAfter(cfg, Front(run)), Last(run))
  }

  /** The operation raises after it fed some text and before it took the digest. */
  predicate RaisesWithText(cfg: Config, left: string, op: Op) {
    && cfg.indexFirst && op.Change? && op.newPassword + Text.ToLower(op.user.email) != ""
    && HistoryVerdict(cfg, left, op.user.lastPasswords, 0, op.newPassword, Text.ToLower(op.user.email)) == Fault
  }

  /** The operation takes no digest and feeds no text. */
  predicate Idle(cfg: Config, op: Op) {
    || (op.Check? && |Text.Tokens(op.stored, '|')| !in {1, 2})
    || (cfg.indexFirst && op.Change? && op.user.lastPasswords != [] && op.user.lastPasswords[0] == "" &&
        op.newPassword + Text.ToLower(op.user.email) == "")
  }

  /** Step `n` raised after it fed some text, and no digest has been taken since. */
  predicate TextIsPending(cfg: Config, run: seq<Op>, n: nat) {
    && n < |run| && RaisesWithText(cfg, LeftAfter(cfg, run[..n]), run[n])
    && forall m :: n < m < |run| ==> Idle(cfg, run[m])
  }

  /** One operation leaves text behind exactly when it raises with text, or is idle and found some. */
  lemma LeftByIff(cfg: Config, left: string, op: Op)
    ensures LeftBy(cfg, left, op) != "" <==> RaisesWithText(cfg, left, op) || (Idle(cfg, op) && left != "")
  {
    if op.Change? {
      var u := op.user;
      var email, history := Text.ToLower(u.email), u.lastPasswords;
      if history != [] {
        FaultIffEmpty(cfg, left, history, 0, op.newPassword, email);
      }
      if cfg.indexFirst && HistoryVerdict(cfg, left, history, 0, op.newPassword, email) == Fault {
        var before := if history[0] == "" then left else "";
        assert LeftBy(cfg, left, op) == before + op.newPassword + email == before + (op.newPassword + email);
        if history[0] != "" {
          assert "" + op.newPassword + email == op.newPassword + email;
        }
        if op.newPassword + email == "" && history[0] != "" {
          assert LeftBy(cfg, left, op) == "";
        }
      }
      hide HistoryVerdict, Text.ToLower;
    }
  }

  lemma PendingStep(cfg: Config, run: seq<Op>, n: nat)
    requires run != [] && n < |run| - 1
    ensures TextIsPending(cfg, run, n) <==> TextIsPending(cfg, Front(run), n) && Idle(cfg, Last(run))
  {
    hide Idle, RaisesWithText, LeftAfter;
    assert Front(run)[..n] == run[..n];
    if TextIsPending(cfg, Front(run), n) && Idle(cfg, Last(run)) {
      forall m | n < m < |run| ensures Idle(cfg, run[m]) {
        if m < |run| - 1 {
          assert Front(run)[m] == run[m];
        }
      }
    }
    if TextIsPending(cfg, run, n) {
      forall m | n < m < |run| - 1 ensures Idle(cfg, Front(run)[m]) {
        assert Front(run)[m] == run[m];
      }
    }
  }

  predicate Pending(cfg: Config, run: seq<Op>) {
    exists n :: 0 <= n < |run| && TextIsPending(cfg, run, n)
  }

  lemma PendingNow(cfg: Config, run: seq<Op>)
    requires run != []
    ensures TextIsPending(cfg, run, |run| - 1) <==> RaisesWithText(cfg, LeftAfter(cfg, Front(run)), Last(run))
  {
    hide LeftAfter, RaisesWithText;
    assert run[..|run| - 1] == Front(run);
  }

  lemma PendingSplit(cfg: Config, run: seq<Op>)
    requires run != []
    ensures Pending(cfg, run) <==>
      RaisesWithText(cfg, LeftAfter(cfg, Front(run)), Last(run)) || (Pending(cfg, Front(run)) && Idle(cfg, Last(run)))
  {
    hide LeftAfter, RaisesWithText, Idle, TextIsPending;
    var before := Front(run);
    PendingNow(cfg, run);
    forall n | 0 <= n < |before| ensures TextIsPending(cfg, run, n) <==> TextIsPending(cfg, before, n) && Idle(cfg, Last(run)) {
      PendingStep(cfg, run, n);
    }
    if n :| 0 <= n < |before| && TextIsPending(cfg, before, n) {
      assert Idle(cfg, Last(run)) ==> TextIsPending(cfg, run, n);
    }
    if n :| 0 <= n < |run| && TextIsPending(cfg, run, n) {
      assert n == |run| - 1 || TextIsPending(cfg, before, n);
    }
  }

  /** In any run of operations by any users the engine holds text exactly when a raise with text is pending. */
  lemma {:induction false} EngineHoldsTextIff(cfg: Config, run: seq<Op>)
    ensures LeftAfter(cfg, run) != "" <==> Pending(cfg, run)
  {
    hide Pending, Idle, RaisesWithText, LeftBy;
    if run == [] {
      NothingPending(cfg);
    } else {
      EngineHoldsTextIff(cfg, Front(run));
      PendingSplit(cfg, run);
      LeftByIff(cfg, LeftAfter(cfg, Front(run)), Last(run));
    }
  }

  lemma NothingPending(cfg: Config)
    ensures !Pending(cfg, [])
  {
  }

  /**
   After any run: the right password of any properly sealed account is recognized, and a new seal opens
   for its password, exactly when no raise with text is pending.
   */
  lemma WorksIffNothingPending(cfg: Config, run: seq<Op>, userName: string, password: string, salt: string)
    requires Injective(cfg.hash) && HexDigests(cfg.hash) && '|' !in salt
    ensures PasswordMatches(cfg, LeftAfter(cfg, run), userName, password, Seal(cfg, "", userName, password, salt)) <==>
      !Pending(cfg, run)
    ensures PasswordMatches(cfg, "", userName, password, Seal(cfg, LeftAfter(cfg, run), userName, password, salt)) <==>
      !Pending(cfg, run)
  {
    EngineHoldsTextIff(cfg, run);
    RightPasswordIff(cfg, "", LeftAfter(cfg, run), userName, password, salt);
    RightPasswordIff(cfg, LeftAfter(cfg, run), "", userName, password, salt);
    hide Pending, PasswordMatches, Seal;
  }

  /** Where the digest is taken first, every path of every operation leaves the engine empty, over every run. */
  lemma DigestFirstStaysEmpty(cfg: Config, run: seq<Op>)
    requires !cfg.indexFirst
    ensures LeftAfter(cfg, run) == ""
  {
    EngineHoldsTextIff(cfg, run);
  }

  /**
   A history that starts with an empty entry makes every change raise. It leaves its text behind exactly
   if the token comes first.
   */
  lemma EmptyFirstEntryRaises(cfg: Config, left: string, u: UserInfo, password: string)
    requires u.lastPasswords != [] && u.lastPasswords[0] == ""
    ensures HistoryVerdict(cfg, left, u.lastPasswords, 0, password, Text.ToLower(u.email)) == Fault
    ensures LeftByChange(cfg, left, u, password) ==
      if cfg.indexFirst then left + password + Text.ToLower(u.email) else ""
  {
    FaultIffEmpty(cfg, left, u.lastPasswords, 0, password, Text.ToLower(u.email));
  }

  // ---------- The history ----------

  datatype Attempt = Attempt(password: string, salt: string)

  /** The history that accepted attempts leave behind, all for one user name. */
  function Sealed(cfg: Config, email: string, accepted: seq<Attempt>): seq<string> {
    seq(|accepted|, i requires 0 <= i < |accepted| => Seal(cfg, "", email, accepted[i].password, accepted[i].salt))
  }

  /** Salts are digits of a clock: of one length, and without the separator. */
  predicate GoodSalts(run: seq<Attempt>, length: nat) {
    forall i :: 0 <= i < |run| ==> |run[i].salt| == length && '|' !in run[i].salt
  }

  predicate GoodEmail(email: string) {
    Text.ToLower(email) == email && Text.Trim(email) == email
  }

  /** Some entry of the history was made from this password. */
  predicate Uses(accepted: seq<Attempt>, password: string) {
    exists i :: 0 <= i < |accepted| && accepted[i].password == password
  }

  predicate SeparatorFree(accepted: seq<Attempt>) {
    forall i :: 0 <= i < |accepted| ==> '|' !in accepted[i].salt
  }

  /**
   Entry `k`'s salt before the new password reads like entry `j`'s salt before its own password. What
   the engine held comes before the very first text that is compared, when reading starts at entry `i`.
   */
  predicate ReadAlike(left: string, accepted: seq<Attempt>, i: nat, k: nat, j: nat, password: string)
    requires k < |accepted| && j < |accepted|
  {
    (if k == i && j == 0 then left else "") + (accepted[k].salt + password) == accepted[j].salt + accepted[j].password
  }

  /** Some pair of entries, the first of them from `i` on, rejects the password. */
  predicate SomePairAlike(left: string, accepted: seq<Attempt>, i: nat, password: string) {
    exists k, j :: i <= k < |accepted| && 0 <= j < |accepted| && ReadAlike(left, accepted, i, k, j, password)
  }

  lemma EntryFindsAlike(cfg: Config, left: string, email: string, accepted: seq<Attempt>, k: nat, password: string)
    requires Injective(cfg.hash) && HexDigests(cfg.hash) && SeparatorFree(accepted) && GoodEmail(email)
    requires k < |accepted|
    ensures EntryVerdict(cfg, left, Sealed(cfg, email, accepted), k, password, email) ==
      if exists j :: 0 <= j < |accepted| && ReadAlike(left, accepted, k, k, j, password) then Reused else Fresh
  {
    var history, text := Sealed(cfg, email, accepted), accepted[k].salt + password + email;
    SealedTokens(cfg, "", email, accepted[k].password, accepted[k].salt);
    forall j | 0 <= j < |accepted| ensures Hit(cfg, left, history, j, text) <==> ReadAlike(left, accepted, k, k, j, password) {
      HitIffAlike(cfg, left, email, accepted, k, j, password);
    }
    assert Text.Tokens(history[k], '|')[0] + password + email == text;
    hide Digest, ReadAlike, Seal, Injective, HexDigests, Hit;
  }

  lemma HitIffAlike(cfg: Config, left: string, email: string, accepted: seq<Attempt>, k: nat, j: nat, password: string)
    requires Injective(cfg.hash) && HexDigests(cfg.hash) && SeparatorFree(accepted) && GoodEmail(email)
    requires k < |accepted| && j < |accepted|
    ensures Hit(cfg, left, Sealed(cfg, email, accepted), j, accepted[k].salt + password + email) <==>
      ReadAlike(left, accepted, k, k, j, password)
  {
    var history, before := Sealed(cfg, email, accepted), if j == 0 then left else "";
    var a, b := accepted[k].salt, accepted[j];
    SealedTokens(cfg, "", email, accepted[0].password, accepted[0].salt);
    assert Salted(history[0]) && (AnySalted(history, j) <==> j > 0);
    SealedTokens(cfg, "", email, b.password, b.salt);
    DigestsAgreeIff(cfg, before, a + password + email, "", b.salt + b.password + email);
    assert before + (a + password + email) == (before + (a + password)) + email;
    assert "" + (b.salt + b.password + email) == (b.salt + b.password) + email;
    SuffixCancels(before + (a + password), b.salt + b.password, email);
    hide Digest, Seal, Injective, HexDigests, AnySalted;
  }

  /**
   What the loop over all pairs of salt and entry really rejects, for salts of any length and any state
   of the engine: the passwords that, behind some kept salt, read like some kept salt and its password.
   */
  lemma {:induction false} ReusedIffReadAlike(cfg: Config, left: string, email: string, accepted: seq<Attempt>, i: nat,
                                              password: string)
    requires Injective(cfg.hash) && HexDigests(cfg.hash) && SeparatorFree(accepted) && GoodEmail(email)
    requires i <= |accepted|
    ensures HistoryVerdict(cfg, left, Sealed(cfg, email, accepted), i, password, email) ==
      if SomePairAlike(left, accepted, i, password) then Reused else Fresh
    decreases |accepted| - i
  {
    if i < |accepted| {
      EntryFindsAlike(cfg, left, email, accepted, i, password);
      ReusedIffReadAlike(cfg, "", email, accepted, i + 1, password);
      PairsStep(left, accepted, i, password);
      hide EntryVerdict, SomePairAlike, Injective, HexDigests, ReadAlike, Seal;
    }
  }

  lemma PairsStep(left: string, accepted: seq<Attempt>, i: nat, password: string)
    requires i < |accepted|
    ensures SomePairAlike(left, accepted, i, password) <==>
      || (exists j :: 0 <= j < |accepted| && ReadAlike(left, accepted, i, i, j, password))
      || SomePairAlike("", accepted, i + 1, password)
  {
    var n := i + 1;
    forall k, j | i < k < |accepted| && 0 <= j < |accepted|
      ensures ReadAlike(left, accepted, i, k, j, password) == ReadAlike("", accepted, n, k, j, password)
    {
    }
    hide ReadAlike;
    if k, j :| i <= k < |accepted| && 0 <= j < |accepted| && ReadAlike(left, accepted, i, k, j, password) {
      if k > i {
        assert ReadAlike("", accepted, n, k, j, password);
      }
    }
    if j :| 0 <= j < |accepted| && ReadAlike(left, accepted, i, i, j, password) {
      assert SomePairAlike(left, accepted, i, password);
    }
    if k, j :| i < k < |accepted| && 0 <= j < |accepted| && ReadAlike("", accepted, n, k, j, password) {
      assert ReadAlike(left, accepted, i, k, j, password);
    }
  }

  /** With salts of one length that is comparing each entry under its own salt: was the password used? */
  lemma ReusedIffUsed(cfg: Config, email: string, accepted: seq<Attempt>, length: nat, password: string)
    requires Injective(cfg.hash) && HexDigests(cfg.hash) && GoodSalts(accepted, length) && GoodEmail(email)
    ensures HistoryVerdict(cfg, "", Sealed(cfg, email, accepted), 0, password, email) ==
      if Uses(accepted, password) then Reused else Fresh
  {
    ReusedIffReadAlike(cfg, "", email, accepted, 0, password);
    hide HistoryVerdict, Sealed, Injective, HexDigests;
    forall k, j | 0 <= k < |accepted| && 0 <= j < |accepted|
      ensures ReadAlike("", accepted, 0, k, j, password) ==> accepted[j].password == password
      ensures accepted[j].password == password ==> ReadAlike("", accepted, 0, j, j, password)
    {
      PrefixCancels("", accepted[j].salt + password, accepted[j].salt + accepted[j].password);
      var u, v := accepted[k].salt + password, accepted[j].salt + accepted[j].password;
      assert "" + u == u && "" + (accepted[j].salt + password) == accepted[j].salt + password;
      assert password == u[length..] && accepted[j].password == v[length..];
    }
    if j :| 0 <= j < |accepted| && accepted[j].password == password {
      assert ReadAlike("", accepted, 0, j, j, password);
    }
    if k, j :| 0 <= k < |accepted| && 0 <= j < |accepted| && ReadAlike("", accepted, 0, k, j, password) {
      assert accepted[j].password == password;
    }
    hide ReadAlike;
  }

  /**
   Text left in the engine spoils the first comparison: the reuse of the only password in a history is
   accepted exactly when the engine held text.
   */
  lemma ReuseIsMissedIff(cfg: Config, left: string, email: string, kept: Attempt)
    requires Injective(cfg.hash) && HexDigests(cfg.hash) && SeparatorFree([kept]) && GoodEmail(email)
    ensures HistoryVerdict(cfg, left, Sealed(cfg, email, [kept]), 0, kept.password, email) == Fresh <==> left != ""
  {
    ReusedIffReadAlike(cfg, left, email, [kept], 0, kept.password);
    assert SomePairAlike(left, [kept], 0, kept.password) <==> ReadAlike(left, [kept], 0, 0, 0, kept.password);
    assert "" + (kept.salt + kept.password) == kept.salt + kept.password;
    SuffixCancels(left, "", kept.salt + kept.password);
  }

  // ---------- Runs of password changes ----------
  // The engine is empty before each of them: see EngineHoldsTextIff.

  function HistoryAfter(cfg: Config, email: string, run: seq<Attempt>): seq<string>
    decreases |run|, 1
  {
    if run == [] then []
    else
      var history := HistoryAfter(cfg, email, Front(run));
      if Takes(cfg, email, run) then Remember(cfg, history, Seal(cfg, "", email, Last(run).password, Last(run).salt))
      else history
  }

  /** The last attempt of the run is accepted. */
  predicate Takes(cfg: Config, email: string, run: seq<Attempt>)
    requires run != []
    decreases |run|, 0
  {
    HistoryVerdict(cfg, "", HistoryAfter(cfg, email, Front(run)), 0, Last(run).password, email) == Fresh
  }

  function AcceptedIn(cfg: Config, email: string, run: seq<Attempt>): seq<Attempt> {
    if run == [] then []
    else AcceptedIn(cfg, email, Front(run)) + if Takes(cfg, email, run) then [Last(run)] else []
  }

  /** The last `n` elements, or all of them if there are fewer. */
  function Recent<T>(s: seq<T>, n: nat): seq<T> {
    if |s| <= n then s else s[|s| - n..]
  }

  lemma AcceptedSalts(cfg: Config, email: string, run: seq<Attempt>, length: nat)
    requires GoodSalts(run, length)
    ensures GoodSalts(AcceptedIn(cfg, email, run), length)
  {
  }

  lemma NothingSealed(cfg: Config, email: string)
    ensures Sealed(cfg, email, []) == []
  {
  }

  /** Remembering one more accepted password keeps the history equal to the recent accepted ones. */
  lemma RememberIsRecent(cfg: Config, email: string, accepted: seq<Attempt>, next: Attempt)
    requires cfg.howManyOldPasswords >= 1
    ensures Remember(cfg, Sealed(cfg, email, Recent(accepted, cfg.howManyOldPasswords)), Seal(cfg, "", email, next.password, next.salt))
      == Sealed(cfg, email, Recent(accepted + [next], cfg.howManyOldPasswords))
  {
    var n := cfg.howManyOldPasswords;
    var recent, recent' := Recent(accepted, n), Recent(accepted + [next], n);
    if |accepted| < n {
      assert recent' == recent + [next];
    } else {
      assert recent' == recent[1..] + [next];
    }
  }

  /**
   A history is cut only when it holds exactly `howManyOldPasswords` entries: a longer one, as it can be
   after the number was lowered or from the body of a create request, grows without end.
   */
  lemma OnlyFullHistoryIsCut(cfg: Config, history: seq<string>, sealed: string)
    requires cfg.howManyOldPasswords >= 1
    ensures var history' := Remember(cfg, history, sealed);
      && Last(history') == sealed
      && (|history| == cfg.howManyOldPasswords ==> Front(history') == history[1..] && |history'| == |history|)
      && (|history| != cfg.howManyOldPasswords ==> Front(history') == history)
  {
  }

  /**
   Along any run of password changes, from an empty history: the history holds the seals of exactly
   the last accepted passwords, at most `howManyOldPasswords` of them, in order; and an attempt is
   rejected exactly when its password is one of those.
   */
  lemma {:induction false} HistoryIsRecentlyAccepted(cfg: Config, email: string, run: seq<Attempt>, length: nat)
    requires Injective(cfg.hash) && HexDigests(cfg.hash) && cfg.howManyOldPasswords >= 1
    requires GoodSalts(run, length) && GoodEmail(email)
    ensures var n := cfg.howManyOldPasswords;
      && HistoryAfter(cfg, email, run) == Sealed(cfg, email, Recent(AcceptedIn(cfg, email, run), n))
      && (run != [] ==>
            (Takes(cfg, email, run) <==> !Uses(Recent(AcceptedIn(cfg, email, Front(run)), n), Last(run).password)))
  {
    hide Injective, HexDigests, HistoryVerdict, Seal, Sealed, Uses, GoodEmail;
    if run == [] {
      assert Sealed(cfg, email, []) == [] by { NothingSealed(cfg, email); }
    } else {
      var before := Front(run);
      HistoryIsRecentlyAccepted(cfg, email, before, length);
      var accepted := AcceptedIn(cfg, email, before);
      AcceptedSalts(cfg, email, before, length);
      ReusedIffUsed(cfg, email, Recent(accepted, cfg.howManyOldPasswords), length, Last(run).password);
      RememberIsRecent(cfg, email, accepted, Last(run));
      assert accepted + [] == accepted;
    }
  }

  /** No password comes back before `howManyOldPasswords` others have been accepted in between. */
  lemma {:induction false} NoEarlyReuse(cfg: Config, email: string, run: seq<Attempt>, length: nat, i: nat, j: nat)
    requires Injective(cfg.hash) && HexDigests(cfg.hash) && cfg.howManyOldPasswords >= 1
    requires GoodSalts(run, length) && GoodEmail(email)
    requires i < j < |AcceptedIn(cfg, email, run)| && j - i <= cfg.howManyOldPasswords
    ensures AcceptedIn(cfg, email, run)[i].password != AcceptedIn(cfg, email, run)[j].password
  {
    hide Injective, HexDigests, HistoryVerdict, HistoryAfter, Sealed, GoodEmail;
    var accepted, n := AcceptedIn(cfg, email, Front(run)), cfg.howManyOldPasswords;
    if j < |accepted| {
      NoEarlyReuse(cfg, email, Front(run), length, i, j);
    } else {
      HistoryIsRecentlyAccepted(cfg, email, run, length);
      var recent := Recent(accepted, n);
      assert recent[|recent| - (j - i)] == accepted[i];
    }
  }

  /**
   With salts of different lengths a password that was never used can be rejected: "1" and "23" read
   like "12" and "3".
   */
  lemma UnevenSaltsCollide(cfg: Config, email: string)
    requires Injective(cfg.hash) && HexDigests(cfg.hash) && GoodEmail(email)
    ensures var accepted := [Attempt("23", "1"), Attempt("x", "12")];
      HistoryVerdict(cfg, "", Sealed(cfg, email, accepted), 0, "3", email) == Reused && !Uses(accepted, "3")
  {
    var accepted := [Attempt("23", "1"), Attempt("x", "12")];
    assert "" + ("12" + "3") == "1" + "23";
    assert ReadAlike("", accepted, 0, 1, 0, "3");
    ReusedIffReadAlike(cfg, "", email, accepted, 0, "3");
    assert SomePairAlike("", accepted, 0, "3");
  }
}
