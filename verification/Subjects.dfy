/**
 Packing of a user and roles into a subject string and taking it apart again
 (auth/oauth2/user_authorizer.go:66-78, auth/handlers/handle_oauth2.go:385-391, 495-501).
 */
module Subjects {
  import opened WorkflowTypes

  function Digit(n: nat): (c: char)
    requires n < 10
    ensures '0' <= c <= '9' && c as int - '0' as int == n
  {
    ('0' as int + n) as char
  }

  /** Decimal representation, as %d prints it. */
  function Dec(n: nat): (s: string)
    ensures s != [] && forall c | c in s :: '0' <= c <= '9'
  {
    if n < 10 then [Digit(n)] else Dec(n / 10) + [Digit(n % 10)]
  }

  predicate IsNumber(s: string) {
    s != [] && forall c | c in s :: '0' <= c <= '9'
  }

  function DigitValue(c: char): nat {
    if '0' <= c <= '9' then c as int - '0' as int else 0
  }

  function Parse(s: string): nat {
    if s == [] then 0 else Parse(s[..|s| - 1]) * 10 + DigitValue(s[|s| - 1])
  }

  lemma {:induction false} ParseDec(n: nat)
    ensures Parse(Dec(n)) == n
  {
    var s := Dec(n);
    if n < 10 {
      assert s[..0] == [];
      assert Parse(s[..0]) == 0;
    } else {
      ParseDec(n / 10);
      assert s[..|s| - 1] == Dec(n / 10);
    }
  }

  function Serialize(userID: nat, roles: seq<nat>): string
    decreases |roles|
  {
    if roles == [] then Dec(userID) else Serialize(userID, roles[..|roles| - 1]) + " " + Dec(roles[|roles| - 1])
  }

  /** Packs user ID and roles, separated by spaces. */
  method UserIDSerializer(userID: nat, roles: seq<nat>) returns (identity: string)
    ensures identity == Serialize(userID, roles)
  {
    identity := Dec(userID);
    for i := 0 to |roles|
      invariant identity == Serialize(userID, roles[..i])
    {
      assert roles[..i + 1][..i] == roles[..i];
      identity := identity + " " + Dec(roles[i]);
    }
    assert roles[..|roles|] == roles;
  }

  /** Position of the first space, or -1. */
  function IndexOfSpace(s: string): (i: int)
    ensures -1 <= i < |s|
    ensures i >= 0 ==> s[i] == ' ' && ' ' !in s[..i]
    ensures i < 0 ==> ' ' !in s
  {
    if s == [] then -1
    else if s[0] == ' ' then 0
    else
      var k := IndexOfSpace(s[1..]);
      if k < 0 then -1 else assert s[..k + 1] == [s[0]] + s[1..][..k]; k + 1
  }

  /** Writes "sub" and, if there is anything behind the first space, "roles". */
  function Split(identity: string, data: map<string, string>): map<string, string> {
    var i := IndexOfSpace(identity);
    if i < 0 then data["sub" := identity]
    else data["sub" := identity[..i]]["roles" := identity[i + 1..]]
  }

  /** The user ID in front of encoded roles, as the token handler takes it. */
  function UserPart(identity: string): string {
    var i := IndexOfSpace(identity);
    if i > 0 then identity[..i] else identity
  }

  /** Role IDs separated by single spaces. */
  function ParseRoles(s: string): Option<seq<nat>>
    decreases |s|
  {
    var i := IndexOfSpace(s);
    if i < 0 then if IsNumber(s) then Some([Parse(s)]) else None
    else if !IsNumber(s[..i]) then None
    else
      var rest := ParseRoles(s[i + 1..]);
      if rest.None? then None else Some([Parse(s[..i])] + rest.value)
  }

  function Joined(roles: seq<nat>): string {
    if roles == [] then "" else if |roles| == 1 then Dec(roles[0]) else Dec(roles[0]) + " " + Joined(roles[1..])
  }

  lemma {:induction false} JoinedSnoc(roles: seq<nat>, r: nat)
    requires roles != []
    ensures Joined(roles + [r]) == Joined(roles) + " " + Dec(r)
  {
    if |roles| == 1 {
      assert (roles + [r])[1..] == [r];
    } else {
      assert (roles + [r])[1..] == roles[1..] + [r];
      JoinedSnoc(roles[1..], r);
      assert Joined(roles + [r]) == Dec(roles[0]) + " " + (Joined(roles[1..]) + " " + Dec(r));
    }
  }

  lemma {:induction false} SerializeIsJoined(userID: nat, roles: seq<nat>)
    ensures Serialize(userID, roles) == Joined([userID] + roles)
    decreases |roles|
  {
    if roles != [] {
      var k := |roles| - 1;
      SerializeIsJoined(userID, roles[..k]);
      JoinedSnoc([userID] + roles[..k], roles[k]);
      assert ([userID] + roles[..k]) + [roles[k]] == [userID] + roles;
    } else {
      assert [userID] + roles == [userID];
    }
  }

  lemma {:induction false} FirstSpaceBehind(a: string, rest: string)
    requires ' ' !in a
    ensures IndexOfSpace(a) == -1
    ensures IndexOfSpace(a + " " + rest) == |a|
  {
    if a != [] {
      FirstSpaceBehind(a[1..], rest);
      assert (a + " " + rest)[1..] == a[1..] + " " + rest;
    }
  }

  // The first space of a joined list is behind its first number.
  lemma FirstSpace(n: nat, rest: string)
    ensures IndexOfSpace(Dec(n)) == -1
    ensures IndexOfSpace(Dec(n) + " " + rest) == |Dec(n)|
  {
    FirstSpaceBehind(Dec(n), rest);
  }

  lemma {:induction false} ParseJoined(roles: seq<nat>)
    requires roles != []
    ensures ParseRoles(Joined(roles)) == Some(roles)
  {
    hide Dec, Parse;
    ParseDec(roles[0]);
    assert [roles[0]] + roles[1..] == roles;
    if |roles| == 1 {
      assert roles == [roles[0]];
      FirstSpace(roles[0], "");
    } else {
      FirstSpace(roles[0], Joined(roles[1..]));
      ParseJoined(roles[1..]);
      var s := Joined(roles);
      var k := |Dec(roles[0])|;
      assert s[..k] == Dec(roles[0]) && s[k + 1..] == Joined(roles[1..]);
    }
  }

  /**
   Round trip: from a packed subject the user ID and the roles, in order, come back, both for the
   claims of the token and for the user lookup; there is no roles claim without roles.
   */
  lemma SubjectRoundTrip(userID: nat, roles: seq<nat>, data: map<string, string>)
    requires "roles" !in data
    ensures var d := Split(Serialize(userID, roles), data);
            && d["sub"] == UserPart(Serialize(userID, roles)) == Dec(userID)
            && IsNumber(d["sub"]) && Parse(d["sub"]) == userID
            && ("roles" in d <==> roles != [])
            && (roles != [] ==> ParseRoles(d["roles"]) == Some(roles))
  {
    SerializeIsJoined(userID, roles);
    ParseDec(userID);
    var s := Serialize(userID, roles);
    if roles == [] {
      FirstSpace(userID, "");
    } else {
      assert ([userID] + roles)[1..] == roles;
      FirstSpace(userID, Joined(roles));
      ParseJoined(roles);
      var k := |Dec(userID)|;
      assert s == Dec(userID) + " " + Joined(roles);
      assert s[..k] == Dec(userID) && s[k + 1..] == Joined(roles);
    }
  }
}
