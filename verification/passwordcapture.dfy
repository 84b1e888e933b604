/**
 The password-capture plugin: it looks through a request body for a
 `name=value` pair whose name is a known user field and one whose name is
 a known password field, and reports the two when both are found and
 neither is longer than 75 characters.
 */
module PasswordCapture {
  import opened Base
  import opened Text

  /** The user-name field names, in the order they are tried
      (plugins/parserhttp.py, lines 15-19). */
  const UserFields: seq<string> := [
    "log", "login", "wpname", "ahd_username", "unickname", "nickname", "user", "user_name",
    "alias", "pseudo", "email", "username", "_username", "userid", "form_loginname", "loginname",
    "login_id", "loginid", "session_key", "sessionkey", "pop_login", "uid", "id", "user_id", "screename",
    "uname", "ulogin", "acctname", "account", "member", "mailaddress", "membername", "login_username",
    "login_email", "loginusername", "loginemail", "uin", "sign-in"]

  /** The password field names, in the order they are tried
      (plugins/parserhttp.py, lines 20-22).
      Two adjacent literals without a comma between them make one entry,
      `login_passwordpasswort`. */
  const PassFields: seq<string> := [
    "ahd_password", "pass", "password", "_password", "passwd", "session_password", "sessionpassword",
    "login_password", "loginpassword", "form_pw", "pw", "userpassword", "pwd", "upassword",
    "login_passwordpasswort", "passwrd", "wppassword", "upasswd"]

  /** Longest user or password text that is still reported. */
  const MaxReported := 75

  lemma FieldTables()
    ensures |UserFields| == 38 && |PassFields| == 18
    ensures PassFields[14] == "login_passwordpasswort"
    ensures "passwort" !in PassFields
  {
  }

  predicate NotAmp(c: char)
  {
    c != '&'
  }

  /** A field starts at `i`: the name in any case, an `=`, and at least
      one character other than `&`. */
  predicate MatchAt(content: string, name: string, i: int)
  {
    && 0 <= i && i + |name| + 1 < |content|
    && (forall k | 0 <= k < |name| :: Lower(content[i + k]) == Lower(name[k]))
    && content[i + |name|] == '='
    && content[i + |name| + 1] != '&'
  }

  /** `i` is the leftmost match, the one `re.search` reports. */
  predicate FirstMatch(content: string, name: string, i: int)
  {
    MatchAt(content, name, i) && forall q | 0 <= q < i :: !MatchAt(content, name, q)
  }

  /** Where the greedy run of non-`&` characters from `j` stops. */
  function ValueEnd(content: string, j: nat): (e: nat)
    requires j <= |content|
    ensures j <= e <= |content|
    ensures forall k | j <= k < e :: content[k] != '&'
    ensures e == |content| || content[e] == '&'
  {
    j + RunLength(content[j..], NotAmp)
  }

  /** The leftmost match at or after `i`; `SearchSpec` states it. */
  function Search(content: string, name: string, i: nat): (r: Option<nat>)
    ensures r.Some? ==> i <= r.value && r.value + |name| + 1 < |content|
    decreases |content| - i
  {
    if i + |name| + 1 >= |content| then None
    else if MatchAt(content, name, i) then Some(i)
    else Search(content, name, i + 1)
  }

  /** `Search` finds a match exactly when there is one from `i` on, and
      the one it finds is the leftmost. */
  lemma {:induction false} SearchSpec(content: string, name: string, i: nat)
    ensures Search(content, name, i).Some? ==> i <= Search(content, name, i).value && MatchAt(content, name, Search(content, name, i).value)
    ensures Search(content, name, i).Some? ==> forall q | i <= q < Search(content, name, i).value :: !MatchAt(content, name, q)
    ensures Search(content, name, i).None? ==> forall q | i <= q :: !MatchAt(content, name, q)
    decreases |content| - i
  {
    if i + |name| + 1 < |content| && !MatchAt(content, name, i) {
      SearchSpec(content, name, i + 1);
    }
  }

  /** The text a field match yields: the name as written in the content,
      `=`, and a non-empty value without `&`. */
  predicate FieldText(v: string, name: string)
  {
    && |name| + 1 < |v|
    && (forall k | 0 <= k < |name| :: Lower(v[k]) == Lower(name[k]))
    && v[|name|] == '='
    && forall k | |name| + 1 <= k < |v| :: v[k] != '&'
  }

  /** The text of the leftmost place where `name` (in any case), an `=`
      and a run of characters other than `&` appear, taken up to the next
      `&` or the end; `FindFieldSpec` states what it finds. */
  function FindField(content: string, name: string): (r: Option<string>)
    ensures r.Some? ==> |name| < |r.value| <= |content|
  {
    match Search(content, name, 0)
    case None => None
    case Some(p) => Some(content[p..ValueEnd(content, p + |name| + 1)])
  }

  /** A field is found exactly when the pattern matches somewhere; what is
      found is the leftmost match, copied from the content with its own
      case and extended over every following non-`&` character. */
  lemma FindFieldSpec(content: string, name: string)
    ensures FindField(content, name).Some? <==> exists p :: MatchAt(content, name, p)
    ensures FindField(content, name).Some? ==>
      exists p :: FirstMatch(content, name, p) && FindField(content, name).value == content[p..ValueEnd(content, p + |name| + 1)]
    ensures FindField(content, name).Some? ==> FieldText(FindField(content, name).value, name)
  {
    SearchSpec(content, name, 0);
    match Search(content, name, 0)
    case None =>
    case Some(p) =>
      var v := content[p..ValueEnd(content, p + |name| + 1)];
      assert FirstMatch(content, name, p);
      assert forall k | 0 <= k < |v| :: v[k] == content[p + k];
  }

  /** The last hit of a sequence of attempts. */
  function LastHit<T>(hits: seq<Option<T>>): (r: Option<T>)
    ensures r.Some? <==> exists j | 0 <= j < |hits| :: hits[j].Some?
    ensures r.Some? ==> exists j | 0 <= j < |hits| :: r == hits[j] && forall j' | j < j' < |hits| :: hits[j'].None?
    decreases |hits|
  {
    if hits == [] then None
    else
      var init := hits[..|hits| - 1];
      assert forall j | 0 <= j < |init| :: init[j] == hits[j];
      if hits[|hits| - 1].Some? then hits[|hits| - 1] else LastHit(init)
  }

  /** The search result of every entry of `table`. */
  function Hits(content: string, table: seq<string>): (hits: seq<Option<string>>)
    ensures |hits| == |table|
    ensures forall j | 0 <= j < |table| :: hits[j] == FindField(content, table[j])
  {
    seq(|table|, j requires 0 <= j < |table| => FindField(content, table[j]))
  }

  /** The match of the last entry of `table` that matches anywhere: the
      reference reading of the table loop, where each later hit overwrites
      the earlier ones. */
  function LastMatch(content: string, table: seq<string>): (r: Option<string>)
    ensures r.Some? <==> exists j | 0 <= j < |table| :: FindField(content, table[j]).Some?
    ensures r.Some? ==> exists j | 0 <= j < |table| ::
      && r == FindField(content, table[j])
      && forall j' | j < j' < |table| :: FindField(content, table[j']).None?
  {
    var hits := Hits(content, table);
    var r := LastHit(hits);
    assert r.Some? ==> exists j | 0 <= j < |hits| :: hits[j].Some?;
    r
  }

  lemma LastHitSnoc<T>(hits: seq<Option<T>>, h: Option<T>)
    ensures LastHit(hits + [h]) == if h.Some? then h else LastHit(hits)
  {
    assert (hits + [h])[..|hits|] == hits;
  }

  /** A hit with only misses after it is the last hit. */
  lemma {:induction false} LastHitIs<T>(hits: seq<Option<T>>, j: nat)
    requires j < |hits| && hits[j].Some?
    requires forall j' | j < j' < |hits| :: hits[j'].None?
    ensures LastHit(hits) == hits[j]
    decreases |hits|
  {
    if j < |hits| - 1 {
      var init := hits[..|hits| - 1];
      LastHitIs(init, j);
    }
  }

  /** An entry that matches, with no matching entry after it, decides the table. */
  lemma LastMatchIs(content: string, table: seq<string>, j: nat)
    requires j < |table| && FindField(content, table[j]).Some?
    requires forall j' | j < j' < |table| :: FindField(content, table[j']).None?
    ensures LastMatch(content, table) == FindField(content, table[j])
  {
    LastHitIs(Hits(content, table), j);
  }

  /** The table loop as the plugin writes it: walk the table front to back, keeping the
      latest hit. It ends with the last matching entry's match. */
  method ScanFields(content: string, table: seq<string>) returns (found: Option<string>)
    ensures found == LastMatch(content, table)
  {
    ghost var hits := Hits(content, table);
    found := None;
    for k := 0 to |table|
      invariant found == LastHit(hits[..k])
    {
      var hit := FindField(content, table[k]);
      assert hits[..k + 1] == hits[..k] + [hits[k]];
      assert hit == hits[k];
      LastHitSnoc(hits[..k], hit);
      if hit.Some? {
        found := hit;
      }
    }
    assert hits[..|table|] == hits;
  }

  /** The (user, password) pair, when both tables hit. */
  function GetPasswordPost(content: string): (r: Option<(string, string)>)
    ensures r.Some? <==>
      && (exists j | 0 <= j < |UserFields| :: FindField(content, UserFields[j]).Some?)
      && (exists j | 0 <= j < |PassFields| :: FindField(content, PassFields[j]).Some?)
  {
    var user := LastMatch(content, UserFields);
    var passwd := LastMatch(content, PassFields);
    if user.Some? && passwd.Some? then Some((user.value, passwd.value)) else None
  }

  /** The pair is reported only when neither text, `name=`
      included, is longer than 75 characters. */
  function ReportedCredentials(content: string): (r: Option<(string, string)>)
    ensures r.Some? ==> |r.value.0| <= MaxReported && |r.value.1| <= MaxReported
    ensures r.Some? ==> GetPasswordPost(content) == r
    ensures r.None? && GetPasswordPost(content).Some? ==>
      |GetPasswordPost(content).value.0| > MaxReported || |GetPasswordPost(content).value.1| > MaxReported
  {
    match GetPasswordPost(content)
    case None => None
    case Some((user, passwd)) =>
      if |user| > MaxReported || |passwd| > MaxReported then None else Some((user, passwd))
  }

  /** A table's answer is the leftmost match of its highest matching
      entry, shaped `name=value`. */
  lemma LastMatchShape(content: string, table: seq<string>)
    ensures LastMatch(content, table).Some? ==>
      exists j | 0 <= j < |table| ::
        && LastMatch(content, table) == FindField(content, table[j])
        && FieldText(LastMatch(content, table).value, table[j])
        && (forall j' | j < j' < |table| :: FindField(content, table[j']).None?)
  {
    var r := LastMatch(content, table);
    if r.Some? {
      var j :| 0 <= j < |table| && r == FindField(content, table[j]) && forall j' | j < j' < |table| :: FindField(content, table[j']).None?;
      FindFieldSpec(content, table[j]);
    }
  }

  /** What a returned pair is: each half is the leftmost match of the
      highest entry of its table that matches at all, a stretch of the
      content shaped `name=value` with the value maximal. */
  lemma GetPasswordPostSpec(content: string)
    ensures GetPasswordPost(content).Some? ==>
      exists j | 0 <= j < |UserFields| ::
        && FindField(content, UserFields[j]) == Some(GetPasswordPost(content).value.0)
        && FieldText(GetPasswordPost(content).value.0, UserFields[j])
        && (forall j' | j < j' < |UserFields| :: FindField(content, UserFields[j']).None?)
    ensures GetPasswordPost(content).Some? ==>
      exists j | 0 <= j < |PassFields| ::
        && FindField(content, PassFields[j]) == Some(GetPasswordPost(content).value.1)
        && FieldText(GetPasswordPost(content).value.1, PassFields[j])
        && (forall j' | j < j' < |PassFields| :: FindField(content, PassFields[j']).None?)
  {
    LastMatchShape(content, UserFields);
    LastMatchShape(content, PassFields);
  }

  /* ---------------------------------------------------------------------
     Worked examples
     --------------------------------------------------------------------- */

  /** A field written as `written` (the name in any case), preceded by text
      that holds no possible first letter of the name and followed by its
      value and then `&` or the end, is found with its own spelling. */
  lemma FindFieldIn(pre: string, written: string, name: string, v: string, rest: string)
    requires |written| == |name| && forall k | 0 <= k < |name| :: Lower(written[k]) == Lower(name[k])
    requires name != [] && forall q | 0 <= q < |pre| :: Lower(pre[q]) != Lower(name[0])
    requires v != [] && forall k | 0 <= k < |v| :: v[k] != '&'
    requires rest == [] || rest[0] == '&'
    ensures FindField(pre + written + "=" + v + rest, name) == Some(written + "=" + v)
  {
    var c := pre + written + "=" + v + rest;
    var p := |pre|;
    FirstMatchIn(pre, written, name, v, rest);
    ValueEndIn(pre, written, v, rest);
    SearchFindsFirst(c, name, p);
    assert c[p..p + |name| + 1 + |v|] == written + "=" + v;
  }

  /** The search stops at the leftmost match. */
  lemma SearchFindsFirst(content: string, name: string, p: nat)
    requires FirstMatch(content, name, p)
    ensures Search(content, name, 0) == Some(p)
  {
    SearchSpec(content, name, 0);
  }

  lemma FirstMatchIn(pre: string, written: string, name: string, v: string, rest: string)
    requires |written| == |name| && forall k | 0 <= k < |name| :: Lower(written[k]) == Lower(name[k])
    requires name != [] && forall q | 0 <= q < |pre| :: Lower(pre[q]) != Lower(name[0])
    requires v != [] && forall k | 0 <= k < |v| :: v[k] != '&'
    ensures FirstMatch(pre + written + "=" + v + rest, name, |pre|)
  {
    var c := pre + written + "=" + v + rest;
    var p := |pre|;
    assert forall k | 0 <= k < |name| :: c[p + k] == written[k];
    assert c[p + |name|] == '=' && c[p + |name| + 1] == v[0];
    forall q | 0 <= q < p
      ensures !MatchAt(c, name, q)
    {
      assert c[q] == pre[q];
    }
  }

  lemma ValueEndIn(pre: string, written: string, v: string, rest: string)
    requires forall k | 0 <= k < |v| :: v[k] != '&'
    requires rest == [] || rest[0] == '&'
    ensures ValueEnd(pre + written + "=" + v + rest, |pre| + |written| + 1) == |pre| + |written| + 1 + |v|
  {
    var c := pre + written + "=" + v + rest;
    assert c[|pre| + |written| + 1..] == v + rest;
    RunLengthOf(v, rest, NotAmp);
  }

  /** The search is not anchored (`id` is found inside `userid`), and the
      name matches in any case and comes back as the content spells it. */
  lemma FindFieldExamples()
    ensures FindField("userid=bob", "id") == Some("id=bob")
    ensures FindField("UserName=Bob&x=1", "username") == Some("UserName=Bob")
  {
    FindFieldUnanchored();
    FindFieldAnyCase();
  }

  lemma FindFieldUnanchored()
    ensures FindField("userid=bob", "id") == Some("id=bob")
  {
    FindFieldIn("user", "id", "id", "bob", "");
    assert "userid=bob" == "user" + "id" + "=" + "bob" + "";
    assert "id" + "=" + "bob" == "id=bob";
  }

  lemma FindFieldAnyCase()
    ensures FindField("UserName=Bob&x=1", "username") == Some("UserName=Bob")
  {
    FindFieldIn("", "UserName", "username", "Bob", "&x=1");
    assert "UserName=Bob&x=1" == "" + "UserName" + "=" + "Bob" + "&x=1";
    assert "UserName" + "=" + "Bob" == "UserName=Bob";
  }

  /** A login form with one user and one password field. */
  const LoginForm := "username=alice&password=secret123"

  /** Both fields of the form are reported, each as `name=value`: the user
      entry `username` and the password entry `password` match, and no
      entry after either of them in its table matches anywhere. */
  lemma LoginFormCaptured()
    ensures GetPasswordPost(LoginForm) == Some(("username=alice", "password=secret123"))
    ensures ReportedCredentials(LoginForm) == Some(("username=alice", "password=secret123"))
  {
    FormUserHalf();
    FormPasswordHalf();
  }

  lemma FormUserHalf()
    ensures LastMatch(LoginForm, UserFields) == Some("username=alice")
  {
    FormFindsUser();
    FormMissesUserTail();
    HitEntries();
    LastMatchIs(LoginForm, UserFields, 11);
  }

  lemma FormPasswordHalf()
    ensures LastMatch(LoginForm, PassFields) == Some("password=secret123")
  {
    FormFindsPassword();
    FormMissesPassTail();
    HitEntries();
    LastMatchIs(LoginForm, PassFields, 2);
  }

  lemma HitEntries()
    ensures UserFields[11] == "username" && PassFields[2] == "password"
  {
  }

  /** In the form, `username` finds `username=alice` and `password` finds
      `password=secret123`. */
  lemma FindFieldLoginForm()
    ensures FindField(LoginForm, "username") == Some("username=alice")
    ensures FindField(LoginForm, "password") == Some("password=secret123")
  {
    FormFindsUser();
    FormFindsPassword();
  }

  lemma FormFindsUser()
    ensures FindField(LoginForm, "username") == Some("username=alice")
  {
    FindFieldIn("", "username", "username", "alice", "&password=secret123");
    UserSpelling();
  }

  lemma FormFindsPassword()
    ensures FindField(LoginForm, "password") == Some("password=secret123")
  {
    FindFieldIn("username=alice&", "password", "password", "secret123", "");
    PasswordSpelling();
  }

  lemma UserSpelling()
    ensures LoginForm == "" + "username" + "=" + "alice" + "&password=secret123"
    ensures "username" + "=" + "alice" == "username=alice"
  {
  }

  lemma PasswordSpelling()
    ensures LoginForm == "username=alice&" + "password" + "=" + "secret123" + ""
    ensures "password" + "=" + "secret123" == "password=secret123"
  {
  }

  /** The form's only `=` signs follow its two names. */
  lemma LoginFormEquals()
    ensures |LoginForm| == 33
    ensures forall i | 0 <= i < |LoginForm| && LoginForm[i] == '=' :: i == 8 || i == 23
  {
  }

  /** No field `n` can match in a content whose only `=` signs are at
      `e1` and `e2`, when `n` differs from the text just before each of them. */
  lemma NoFieldBefore(c: string, n: string, e1: nat, e2: nat, k1: int, k2: int)
    requires forall i | 0 <= i < |c| && c[i] == '=' :: i == e1 || i == e2
    requires |n| > e1 || (0 <= k1 < |n| && e1 < |c| && Lower(c[e1 - |n| + k1]) != Lower(n[k1]))
    requires |n| > e2 || (0 <= k2 < |n| && e2 < |c| && Lower(c[e2 - |n| + k2]) != Lower(n[k2]))
    ensures FindField(c, n).None?
  {
    forall p
      ensures !MatchAt(c, n, p)
    {
      if 0 <= p && p + |n| < |c| && c[p + |n|] == '=' {
        if p + |n| == e1 {
          assert Lower(c[p + k1]) != Lower(n[k1]);
        } else {
          assert Lower(c[p + k2]) != Lower(n[k2]);
        }
      }
    }
    FindFieldSpec(c, n);
  }

  /** `n` does not match in the form: character `k1` of it differs from the
      text before the first `=`, and character `k2` from the text before
      the second. */
  lemma NoField(n: string, k1: int, k2: int)
    requires |n| > 8 || (0 <= k1 < |n| && Lower(LoginForm[8 - |n| + k1]) != Lower(n[k1]))
    requires |n| > 23 || (0 <= k2 < |n| && Lower(LoginForm[23 - |n| + k2]) != Lower(n[k2]))
    ensures FindField(LoginForm, n).None?
  {
    LoginFormEquals();
    NoFieldBefore(LoginForm, n, 8, 23, k1, k2);
  }

  lemma FormMissesUserTail()
    ensures forall j | 11 < j < |UserFields| :: FindField(LoginForm, UserFields[j]).None?
  {
    forall j | 11 < j < |UserFields|
      ensures FindField(LoginForm, UserFields[j]).None?
    {
      if j == 12 {
        FormMissesUser12();
      } else if j == 13 {
        FormMissesUser13();
      } else if j == 14 {
        FormMissesUser14();
      } else if j == 15 {
        FormMissesUser15();
      } else if j == 16 {
        FormMissesUser16();
      } else if j == 17 {
        FormMissesUser17();
      } else if j == 18 {
        FormMissesUser18();
      } else if j == 19 {
        FormMissesUser19();
      } else if j == 20 {
        FormMissesUser20();
      } else if j == 21 {
        FormMissesUser21();
      } else if j == 22 {
        FormMissesUser22();
      } else if j == 23 {
        FormMissesUser23();
      } else if j == 24 {
        FormMissesUser24();
      } else if j == 25 {
        FormMissesUser25();
      } else if j == 26 {
        FormMissesUser26();
      } else if j == 27 {
        FormMissesUser27();
      } else if j == 28 {
        FormMissesUser28();
      } else if j == 29 {
        FormMissesUser29();
      } else if j == 30 {
        FormMissesUser30();
      } else if j == 31 {
        FormMissesUser31();
      } else if j == 32 {
        FormMissesUser32();
      } else if j == 33 {
        FormMissesUser33();
      } else if j == 34 {
        FormMissesUser34();
      } else if j == 35 {
        FormMissesUser35();
      } else if j == 36 {
        FormMissesUser36();
      } else if j == 37 {
        FormMissesUser37();
      }
    }
  }

  lemma FormMissesPassTail()
    ensures forall j | 2 < j < |PassFields| :: FindField(LoginForm, PassFields[j]).None?
  {
    forall j | 2 < j < |PassFields|
      ensures FindField(LoginForm, PassFields[j]).None?
    {
      if j == 3 {
        FormMissesPass3();
      } else if j == 4 {
        FormMissesPass4();
      } else if j == 5 {
        FormMissesPass5();
      } else if j == 6 {
        FormMissesPass6();
      } else if j == 7 {
        FormMissesPass7();
      } else if j == 8 {
        FormMissesPass8();
      } else if j == 9 {
        FormMissesPass9();
      } else if j == 10 {
        FormMissesPass10();
      } else if j == 11 {
        FormMissesPass11();
      } else if j == 12 {
        FormMissesPass12();
      } else if j == 13 {
        FormMissesPass13();
      } else if j == 14 {
        FormMissesPass14();
      } else if j == 15 {
        FormMissesPass15();
      } else if j == 16 {
        FormMissesPass16();
      } else if j == 17 {
        FormMissesPass17();
      }
    }
  }

  lemma FormMissesUser12()
    ensures FindField(LoginForm, UserFields[12]).None?
  {
    NoField(UserFields[12], 0, 0);
  }

  lemma FormMissesUser13()
    ensures FindField(LoginForm, UserFields[13]).None?
  {
    NoField(UserFields[13], 0, 0);
  }

  lemma FormMissesUser14()
    ensures FindField(LoginForm, UserFields[14]).None?
  {
    NoField(UserFields[14], 0, 0);
  }

  lemma FormMissesUser15()
    ensures FindField(LoginForm, UserFields[15]).None?
  {
    NoField(UserFields[15], 0, 0);
  }

  lemma FormMissesUser16()
    ensures FindField(LoginForm, UserFields[16]).None?
  {
    NoField(UserFields[16], 0, 0);
  }

  lemma FormMissesUser17()
    ensures FindField(LoginForm, UserFields[17]).None?
  {
    NoField(UserFields[17], 0, 0);
  }

  lemma FormMissesUser18()
    ensures FindField(LoginForm, UserFields[18]).None?
  {
    NoField(UserFields[18], 0, 0);
  }

  lemma FormMissesUser19()
    ensures FindField(LoginForm, UserFields[19]).None?
  {
    NoField(UserFields[19], 0, 0);
  }

  lemma FormMissesUser20()
    ensures FindField(LoginForm, UserFields[20]).None?
  {
    NoField(UserFields[20], 0, 0);
  }

  lemma FormMissesUser21()
    ensures FindField(LoginForm, UserFields[21]).None?
  {
    NoField(UserFields[21], 0, 0);
  }

  lemma FormMissesUser22()
    ensures FindField(LoginForm, UserFields[22]).None?
  {
    NoField(UserFields[22], 0, 0);
  }

  lemma FormMissesUser23()
    ensures FindField(LoginForm, UserFields[23]).None?
  {
    NoField(UserFields[23], 0, 0);
  }

  lemma FormMissesUser24()
    ensures FindField(LoginForm, UserFields[24]).None?
  {
    NoField(UserFields[24], 0, 0);
  }

  lemma FormMissesUser25()
    ensures FindField(LoginForm, UserFields[25]).None?
  {
    NoField(UserFields[25], 0, 0);
  }

  lemma FormMissesUser26()
    ensures FindField(LoginForm, UserFields[26]).None?
  {
    NoField(UserFields[26], 0, 0);
  }

  lemma FormMissesUser27()
    ensures FindField(LoginForm, UserFields[27]).None?
  {
    NoField(UserFields[27], 0, 0);
  }

  lemma FormMissesUser28()
    ensures FindField(LoginForm, UserFields[28]).None?
  {
    NoField(UserFields[28], 0, 1);
  }

  lemma FormMissesUser29()
    ensures FindField(LoginForm, UserFields[29]).None?
  {
    NoField(UserFields[29], 0, 0);
  }

  lemma FormMissesUser30()
    ensures FindField(LoginForm, UserFields[30]).None?
  {
    NoField(UserFields[30], 0, 0);
  }

  lemma FormMissesUser31()
    ensures FindField(LoginForm, UserFields[31]).None?
  {
    NoField(UserFields[31], 0, 0);
  }

  lemma FormMissesUser32()
    ensures FindField(LoginForm, UserFields[32]).None?
  {
    NoField(UserFields[32], 0, 0);
  }

  lemma FormMissesUser33()
    ensures FindField(LoginForm, UserFields[33]).None?
  {
    NoField(UserFields[33], 0, 0);
  }

  lemma FormMissesUser34()
    ensures FindField(LoginForm, UserFields[34]).None?
  {
    NoField(UserFields[34], 0, 1);
  }

  lemma FormMissesUser35()
    ensures FindField(LoginForm, UserFields[35]).None?
  {
    NoField(UserFields[35], 0, 0);
  }

  lemma FormMissesUser36()
    ensures FindField(LoginForm, UserFields[36]).None?
  {
    NoField(UserFields[36], 0, 0);
  }

  lemma FormMissesUser37()
    ensures FindField(LoginForm, UserFields[37]).None?
  {
    NoField(UserFields[37], 1, 0);
  }

  lemma FormMissesPass3()
    ensures FindField(LoginForm, PassFields[3]).None?
  {
    NoField(PassFields[3], 0, 0);
  }

  lemma FormMissesPass4()
    ensures FindField(LoginForm, PassFields[4]).None?
  {
    NoField(PassFields[4], 0, 0);
  }

  lemma FormMissesPass5()
    ensures FindField(LoginForm, PassFields[5]).None?
  {
    NoField(PassFields[5], 0, 0);
  }

  lemma FormMissesPass6()
    ensures FindField(LoginForm, PassFields[6]).None?
  {
    NoField(PassFields[6], 0, 0);
  }

  lemma FormMissesPass7()
    ensures FindField(LoginForm, PassFields[7]).None?
  {
    NoField(PassFields[7], 0, 0);
  }

  lemma FormMissesPass8()
    ensures FindField(LoginForm, PassFields[8]).None?
  {
    NoField(PassFields[8], 0, 1);
  }

  lemma FormMissesPass9()
    ensures FindField(LoginForm, PassFields[9]).None?
  {
    NoField(PassFields[9], 0, 0);
  }

  lemma FormMissesPass10()
    ensures FindField(LoginForm, PassFields[10]).None?
  {
    NoField(PassFields[10], 0, 0);
  }

  lemma FormMissesPass11()
    ensures FindField(LoginForm, PassFields[11]).None?
  {
    NoField(PassFields[11], 0, 0);
  }

  lemma FormMissesPass12()
    ensures FindField(LoginForm, PassFields[12]).None?
  {
    NoField(PassFields[12], 0, 0);
  }

  lemma FormMissesPass13()
    ensures FindField(LoginForm, PassFields[13]).None?
  {
    NoField(PassFields[13], 0, 0);
  }

  lemma FormMissesPass14()
    ensures FindField(LoginForm, PassFields[14]).None?
  {
    NoField(PassFields[14], 0, 0);
  }

  lemma FormMissesPass15()
    ensures FindField(LoginForm, PassFields[15]).None?
  {
    NoField(PassFields[15], 0, 0);
  }

  lemma FormMissesPass16()
    ensures FindField(LoginForm, PassFields[16]).None?
  {
    NoField(PassFields[16], 0, 0);
  }

  lemma FormMissesPass17()
    ensures FindField(LoginForm, PassFields[17]).None?
  {
    NoField(PassFields[17], 0, 0);
  }
}
