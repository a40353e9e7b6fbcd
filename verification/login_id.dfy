/** The session id codec: `get_id` on the two account classes and the `load_user` callback
    that turns the stored string back into an account. */
module LoginId {
  import opened Common
  import opened Decimal

  /** The two account tables. Ids are per table, so the kind is part of the identity. */
  datatype AccountKind = UserAccount | AdminAccount

  /** An authenticated principal: which table and which primary key. */
  datatype Principal = Principal(kind: AccountKind, id: nat)

  function KindPrefix(k: AccountKind): (p: string)
    ensures '_' !in p
  {
    match k
    case UserAccount => "user"
    case AdminAccount => "admin"
  }

  /** Splits at the FIRST occurrence of `sep` only, like `str.split(sep, 1)` on a string that
      contains `sep`; `None` when `sep` does not occur. */
  function SplitFirst(s: string, sep: char): (r: Option<(string, string)>)
    decreases |s|
    ensures r.None? <==> sep !in s
    ensures r.Some? ==> s == r.value.0 + [sep] + r.value.1 && sep !in r.value.0
  {
    if |s| == 0 then None
    else if s[0] == sep then Some(([], s[1..]))
    else
      match SplitFirst(s[1..], sep)
      case None => None
      case Some(parts) =>
        assert s == [s[0]] + s[1..];
        Some(([s[0]] + parts.0, parts.1))
  }

  /** The split is determined: whatever precedes the first separator is the prefix. */
  lemma {:induction false} SplitFirstUnique(a: string, b: string, sep: char)
    requires sep !in a
    ensures SplitFirst(a + [sep] + b, sep) == Some((a, b))
    decreases |a|
  {
    var s := a + [sep] + b;
    if |a| > 0 {
      assert s[1..] == a[1..] + [sep] + b;
      SplitFirstUnique(a[1..], b, sep);
      assert [s[0]] + a[1..] == a;
    } else {
      assert s[1..] == b;
    }
  }

  /** `User.get_id` / `Admin.get_id`: the kind's prefix, an underscore, the decimal id. The
      first underscore of the result separates exactly the prefix from the id's digits. */
  function GetId(p: Principal): (s: string)
    ensures SplitFirst(s, '_') == Some((KindPrefix(p.kind), NatToString(p.id)))
  {
    SplitFirstUnique(KindPrefix(p.kind), NatToString(p.id), '_');
    KindPrefix(p.kind) + "_" + NatToString(p.id)
  }

  /** The table lookup `load_user` dispatches to; `query.get` yields nothing for a missing key. */
  function Lookup(kind: AccountKind, id: nat, users: set<nat>, admins: set<nat>): (r: Option<Principal>)
    ensures r.Some? <==> id in (if kind == UserAccount then users else admins)
    ensures r.Some? ==> r.value == Principal(kind, id)
  {
    var table := if kind == UserAccount then users else admins;
    if id in table then Some(Principal(kind, id)) else None
  }

  /** `load_user`: split at the first underscore, parse the rest as an integer, dispatch on the
      prefix. `users` and `admins` are the primary keys present in the two tables. */
  function LoadUser(s: string, users: set<nat>, admins: set<nat>): (r: Option<Principal>)
    ensures '_' !in s ==> r.None?
    ensures r.Some? ==> SplitFirst(s, '_').Some?
    ensures r.Some? ==> SplitFirst(s, '_').value.0 == KindPrefix(r.value.kind)
    ensures r.Some? ==> ParseNat(SplitFirst(s, '_').value.1) == Some(r.value.id)
    ensures r.Some? ==> r.value.id in (if r.value.kind == UserAccount then users else admins)
    ensures forall k: AccountKind ::
              SplitFirst(s, '_').Some? && SplitFirst(s, '_').value.0 == KindPrefix(k) && ParseNat(SplitFirst(s, '_').value.1).Some? ==>
                (r.Some? <==> ParseNat(SplitFirst(s, '_').value.1).value in (if k == UserAccount then users else admins))
                && (r.Some? ==> r.value == Principal(k, ParseNat(SplitFirst(s, '_').value.1).value))
  {
    match SplitFirst(s, '_')
    case None => None
    case Some(parts) =>
      match ParseNat(parts.1)
      case None => None
      case Some(id) =>
        if parts.0 == "user" then Lookup(UserAccount, id, users, admins)
        else if parts.0 == "admin" then Lookup(AdminAccount, id, users, admins)
        else None
  }

  /** Leading zeros are accepted, as `int("007")` is 7: `user_007` loads user 7. */
  lemma LeadingZerosAccepted(users: set<nat>, admins: set<nat>)
    requires 7 in users
    ensures LoadUser("user_007", users, admins) == Some(Principal(UserAccount, 7))
  {
    SplitFirstUnique("user", "007", '_');
    assert "user" + "_" + "007" == "user_007";
    assert DigitsValue("007") == 7 by {
      assert "007"[..2] == "00" && "00"[..1] == "0";
    }
  }

  /** A suffix that is not an integer yields no account, whatever the prefix. */
  lemma NonIntegerSuffixRejected(prefix: string, suffix: string, users: set<nat>, admins: set<nat>)
    requires '_' !in prefix
    requires ParseNat(suffix).None?
    ensures LoadUser(prefix + "_" + suffix, users, admins).None?
  {
    SplitFirstUnique(prefix, suffix, '_');
  }

  /** A prefix other than `user` and `admin` yields no account, whatever the suffix. */
  lemma UnknownPrefixRejected(prefix: string, suffix: string, users: set<nat>, admins: set<nat>)
    requires '_' !in prefix
    requires prefix != "user" && prefix != "admin"
    ensures LoadUser(prefix + "_" + suffix, users, admins).None?
  {
    SplitFirstUnique(prefix, suffix, '_');
  }

  /** Round trip: loading the id a principal wrote gives that principal back, exactly when its
      row still exists in its own table. */
  lemma LoadUserGetId(p: Principal, users: set<nat>, admins: set<nat>)
    ensures LoadUser(GetId(p), users, admins) == Lookup(p.kind, p.id, users, admins)
    ensures p.id in (if p.kind == UserAccount then users else admins) ==>
              LoadUser(GetId(p), users, admins) == Some(p)
  {
    ParseNatToString(p.id);
  }

  /** The codec is injective: two principals with the same id string are the same principal. */
  lemma GetIdInjective(p: Principal, q: Principal)
    requires GetId(p) == GetId(q)
    ensures p == q
  {
    ParseNatToString(p.id);
    ParseNatToString(q.id);
  }

  /** Whatever `load_user` accepts is, up to leading zeros in the digits, an id `get_id` writes:
      re-encoding the loaded principal and loading again is stable. */
  lemma LoadUserStable(s: string, users: set<nat>, admins: set<nat>)
    requires LoadUser(s, users, admins).Some?
    ensures LoadUser(GetId(LoadUser(s, users, admins).value), users, admins) == LoadUser(s, users, admins)
  {
    LoadUserGetId(LoadUser(s, users, admins).value, users, admins);
  }

  /** A canonical id string (no leading zeros) is exactly `get_id` of what it loads. */
  lemma CanonicalIdRoundTrip(k: AccountKind, digits: string, users: set<nat>, admins: set<nat>)
    requires Canonical(digits)
    requires DigitsValue(digits) in (if k == UserAccount then users else admins)
    ensures LoadUser(KindPrefix(k) + "_" + digits, users, admins).Some?
    ensures GetId(LoadUser(KindPrefix(k) + "_" + digits, users, admins).value) == KindPrefix(k) + "_" + digits
  {
    SplitFirstUnique(KindPrefix(k), digits, '_');
    NatToStringOfCanonical(digits);
  }
}
