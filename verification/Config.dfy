/** The configuration: rules, keys, and the checks made with them. */
module Config {
  import opened Base
  import Hex

  const HASH_SIZE: nat := 64
  type Digest = s: seq<Byte> | |s| == HASH_SIZE witness seq(HASH_SIZE, _ => 0)

  /** HMAC-SHA-512 of data under a key; None is a failure inside the library. */
  type Hmac = (string, string) -> Option<Digest>

  /** Whether a pattern matches a whole line. */
  type Matcher = (string, string) -> bool

  datatype Action = ALLOW | DENY | ASK
  datatype ActionGroup = ActionGroup(action: Action, patterns: seq<string>)
  datatype Rules = Rules(groups: seq<ActionGroup>, default: Action)

  /** What a FileConfig holds. */
  datatype Settings = Settings(config: string, key: string, passwordHash: seq<Byte>, rules: Rules)

  predicate Matches(g: ActionGroup, line: string, matcher: Matcher) {
    exists i :: 0 <= i < |g.patterns| && matcher(g.patterns[i], line)
  }

  function ActionOf(groups: seq<ActionGroup>, default: Action, line: string, matcher: Matcher): Action
    decreases |groups|
  {
    if groups == [] then default
    else if Matches(groups[0], line, matcher) then groups[0].action
    else ActionOf(groups[1..], default, line, matcher)
  }

  /** Group g is the first that matches the line. */
  ghost predicate FirstMatch(groups: seq<ActionGroup>, line: string, matcher: Matcher, g: int) {
    0 <= g < |groups| && Matches(groups[g], line, matcher) && forall h :: 0 <= h < g ==> !Matches(groups[h], line, matcher)
  }

  /** Earlier groups shadow later ones; the default applies when none matches. */
  lemma {:induction false} FirstMatchWins(groups: seq<ActionGroup>, default: Action, line: string, matcher: Matcher)
    ensures forall g :: FirstMatch(groups, line, matcher, g) ==> ActionOf(groups, default, line, matcher) == groups[g].action
    ensures (forall g :: 0 <= g < |groups| ==> !Matches(groups[g], line, matcher)) ==>
              ActionOf(groups, default, line, matcher) == default
    decreases |groups|
  {
    if groups == [] {
    } else {
      var rest := groups[1..];
      FirstMatchWins(rest, default, line, matcher);
      forall g | FirstMatch(groups, line, matcher, g) && g > 0
        ensures FirstMatch(rest, line, matcher, g - 1) && rest[g - 1] == groups[g]
      {
        forall h | 0 <= h < g - 1 ensures !Matches(rest[h], line, matcher) {
          assert rest[h] == groups[h + 1];
        }
      }
      if forall g :: 0 <= g < |groups| ==> !Matches(groups[g], line, matcher) {
        assert forall g :: 0 <= g < |rest| ==> rest[g] == groups[g + 1];
      }
    }
  }

  /** The file's password or signature check: the library must answer, with exactly these bytes. */
  predicate VerifyHmac(hmac: Hmac, key: string, data: string, mac: seq<Byte>) {
    hmac(key, data).Some? && hmac(key, data).value == mac
  }

  // ---- loading ------------------------------------------------------------------

  /** The configuration file after JSON decoding. */
  datatype RawGroup = RawGroup(action: string, patterns: seq<string>)
  datatype RawConfig = RawConfig(text: string, password: string, defaultAction: string, groups: seq<RawGroup>)

  function ToAction(s: string): Option<Action> {
    if s == "allow" then Some(ALLOW) else if s == "ask" then Some(ASK) else if s == "deny" then Some(DENY) else None
  }

  /** How the file spells an action. */
  function Word(a: Action): string {
    match a
    case ALLOW => "allow"
    case DENY => "deny"
    case ASK => "ask"
  }

  /** A word is read as the action it spells; other words are not read. */
  lemma WordExact(s: string, a: Action)
    ensures ToAction(s) == Some(a) <==> s == Word(a)
    ensures ToAction(s).Some? <==> s == "allow" || s == "deny" || s == "ask"
  {
    assert "allow"[0] != "ask"[0] || "allow"[1] != "ask"[1];
    assert "deny"[0] != "allow"[0] && "deny"[0] != "ask"[0];
  }

  /** The settings are those the file describes. */
  ghost predicate Describes(raw: RawConfig, s: Settings) {
    && s.config == raw.text && s.key == ""
    && Hex.Decoded(raw.password) == Some(s.passwordHash)
    && raw.defaultAction == Word(s.rules.default)
    && |s.rules.groups| == |raw.groups|
    && forall i :: 0 <= i < |raw.groups| ==>
         && raw.groups[i].action == Word(s.rules.groups[i].action)
         && s.rules.groups[i].patterns == raw.groups[i].patterns
  }

  predicate KnownWord(s: string) { s == "allow" || s == "deny" || s == "ask" }

  /** The file is accepted: readable password hash of the right size or none, and known actions. */
  ghost predicate Acceptable(raw: RawConfig) {
    && Hex.Decoded(raw.password).Some? && (raw.password == "" || |raw.password| == 2 * HASH_SIZE)
    && KnownWord(raw.defaultAction)
    && forall i :: 0 <= i < |raw.groups| ==> KnownWord(raw.groups[i].action)
  }

  class FileConfig {
    const hmac: Hmac
    const matcher: Matcher
    var config: string
    var key: string
    var passwordHash: seq<Byte>
    var rules: Rules

    constructor (hmac: Hmac, matcher: Matcher)
      ensures this.hmac == hmac && this.matcher == matcher
    {
      this.hmac, this.matcher := hmac, matcher;
      config, key, passwordHash, rules := "", "", [], Rules([], DENY);
    }

    function State(): Settings
      reads this
    {
      Settings(config, key, passwordHash, rules)
    }

    /** Loads the file; false is a configuration error. */
    method Load(raw: RawConfig) returns (ok: bool)
      modifies this
      ensures ok <==> Acceptable(raw)
      ensures ok ==> Describes(raw, State())
    {
      config, key := raw.text, "";
      var hash := Hex.Hex2Bytes(raw.password);
      if hash.None? || (hash.value != [] && |hash.value| != HASH_SIZE) {
        return false;
      }
      assert Hex.Decoded(raw.password) == hash by {
        assert Hex.Decoded(raw.password).value == hash.value;
      }
      passwordHash := hash.value;
      var default := ToAction(raw.defaultAction);
      WordExact(raw.defaultAction, DENY);
      if default.None? {
        return false;
      }
      var groups: seq<ActionGroup> := [];
      var i := 0;
      while i < |raw.groups|
        invariant 0 <= i <= |raw.groups| && |groups| == i
        invariant config == raw.text && key == "" && passwordHash == hash.value
        invariant forall j :: 0 <= j < i ==>
                    && KnownWord(raw.groups[j].action) && raw.groups[j].action == Word(groups[j].action)
                    && groups[j].patterns == raw.groups[j].patterns
      {
        var action := ToAction(raw.groups[i].action);
        WordExact(raw.groups[i].action, if action.Some? then action.value else DENY);
        if action.None? {
          return false;
        }
        groups := groups + [ActionGroup(action.value, raw.groups[i].patterns)];
        i := i + 1;
      }
      WordExact(raw.defaultAction, default.value);
      rules := Rules(groups, default.value);
      return true;
    }

    /** The nested loops over groups and patterns. */
    method GetAction(line: string) returns (a: Action)
      ensures a == ActionOf(rules.groups, rules.default, line, matcher)
    {
      var g := 0;
      while g < |rules.groups|
        invariant 0 <= g <= |rules.groups|
        invariant ActionOf(rules.groups, rules.default, line, matcher) ==
                  ActionOf(rules.groups[g..], rules.default, line, matcher)
      {
        var patterns := rules.groups[g].patterns;
        var i := 0;
        while i < |patterns|
          invariant 0 <= i <= |patterns|
          invariant forall j :: 0 <= j < i ==> !matcher(patterns[j], line)
        {
          if matcher(patterns[i], line) {
            return rules.groups[g].action;
          }
          i := i + 1;
        }
        assert rules.groups[g..][1..] == rules.groups[g + 1..];
        g := g + 1;
      }
      return rules.default;
    }

    predicate HasPassword()
      reads this
    {
      passwordHash != []
    }

    predicate VerifyPassword(password: string)
      reads this
    {
      VerifyHmac(hmac, key, password, passwordHash)
    }

    method DismissSignature()
      modifies this`config
      ensures config == ""
    {
      config := "";
    }

    method RemovePassword()
      modifies this`passwordHash
      ensures passwordHash == []
    {
      passwordHash := [];
    }

    /** Stores the key and checks the configuration text with it. None is a configuration error: the
        signature file is missing or has the wrong length. */
    method VerifySignature(key: string, file: Option<seq<Byte>>) returns (r: Option<bool>)
      modifies this`key, this`config
      ensures this.key == key
      ensures r.Some? <==> file.Some? && |file.value| == HASH_SIZE
      ensures r.Some? ==> (r.value <==> hmac(key, old(config)).Some? && hmac(key, old(config)).value == file.value)
      ensures config == if r == Some(true) then "" else old(config)
    {
      this.key := key;
      if file.None? || |file.value| != HASH_SIZE {
        return None;
      }
      if VerifyHmac(hmac, key, config, file.value) {
        DismissSignature();
        return Some(true);
      }
      return Some(false);
    }
  }

  /** The comment on verify_password promises success when there is no password; the code fails. */
  lemma NoPasswordNeverVerifies(hmac: Hmac, key: string, password: string)
    ensures !VerifyHmac(hmac, key, password, [])
  {
    var mac: Option<Digest> := hmac(key, password);
    assert mac.Some? ==> |mac.value| == HASH_SIZE;
  }

  /** The password is correct: its HMAC under the key is the stored hash. */
  predicate IsCorrect(hmac: Hmac, key: string, password: string, hash: seq<Byte>) {
    hmac(key, password).Some? && hmac(key, password).value == hash
  }

  /** The check does what its comment says (true if the password is correct or there is none) exactly when
      there is a password. */
  lemma VerifyMeetsCommentIff(hmac: Hmac, key: string, password: string, hash: seq<Byte>)
    ensures (VerifyHmac(hmac, key, password, hash) <==> hash == [] || IsCorrect(hmac, key, password, hash)) <==>
            hash != []
  {
    if hash == [] {
      NoPasswordNeverVerifies(hmac, key, password);
    }
  }

  // ---- from the words of the file ----------------------------------------------------

  /** Some pattern of the group matches the line. */
  ghost predicate RawMatches(g: RawGroup, line: string, matcher: Matcher) {
    exists i :: 0 <= i < |g.patterns| && matcher(g.patterns[i], line)
  }

  /** The word that decides about a line: that of the first group with a matching pattern, or the default. */
  ghost predicate Decides(raw: RawConfig, line: string, matcher: Matcher, word: string) {
    || (exists g :: 0 <= g < |raw.groups| && RawMatches(raw.groups[g], line, matcher) && word == raw.groups[g].action
                    && forall h :: 0 <= h < g ==> !RawMatches(raw.groups[h], line, matcher))
    || (word == raw.defaultAction && forall g :: 0 <= g < |raw.groups| ==> !RawMatches(raw.groups[g], line, matcher))
  }

  /** The action for a line is the one spelt by the word that decides about it. */
  lemma WordDecides(raw: RawConfig, s: Settings, line: string, matcher: Matcher, word: string)
    requires Describes(raw, s) && Decides(raw, line, matcher, word)
    ensures word == Word(ActionOf(s.rules.groups, s.rules.default, line, matcher))
  {
    var groups := s.rules.groups;
    FirstMatchWins(groups, s.rules.default, line, matcher);
    forall h | 0 <= h < |groups|
      ensures Matches(groups[h], line, matcher) <==> RawMatches(raw.groups[h], line, matcher)
    {
    }
    if g :| 0 <= g < |raw.groups| && RawMatches(raw.groups[g], line, matcher) && word == raw.groups[g].action
            && forall h :: 0 <= h < g ==> !RawMatches(raw.groups[h], line, matcher) {
      assert FirstMatch(groups, line, matcher, g);
    }
  }
}
