/**
 * The payload checks of lib/validation.ts: the e-mail shape, and the ordered
 * lists of messages for a user body and a post body.
 */
module Validation {
  import opened Options
  import opened Seqs
  import opened Text
  import opened Types

  const NameMessage := "Nome deve ter pelo menos 2 caracteres"
  const EmailMessage := "Email deve ter um formato válido"
  const TitleMessage := "Título é obrigatório"
  const ContentMessage := "Conteúdo é obrigatório"
  const AuthorIdMessage := "ID do autor é obrigatório"

  /** JavaScript truthiness of a JSON value. */
  predicate Truthy(v: Json)
  {
    match v
    case Undefined => false
    case Null => false
    case Bool(b) => b
    case Num(n) => n != 0
    case Str(s) => s != ""
  }

  // ---------------------------------------------------------------------------
  // validateEmail

  /** A character of the class [^\s@]. */
  predicate RunChar(c: char)
  {
    !IsSpace(c) && c != '@'
  }

  predicate Run(s: string)
  {
    forall i :: 0 <= i < |s| ==> RunChar(s[i])
  }

  /**
   * The pattern ^[^\s@]+@[^\s@]+\.[^\s@]+$ as a decomposition of s into a
   * local part, '@', a host, '.', and a last label: three non-empty runs
   * without white space or '@'.
   */
  ghost predicate EmailShape(s: string)
  {
    exists at, dot :: 0 < at && at + 1 < dot && dot + 1 < |s| && s[at] == '@' && s[dot] == '.'
      && Run(s[..at]) && Run(s[at + 1..dot]) && Run(s[dot + 1..])
  }

  /**
   * Where a left-to-right match of the pattern stands: before or inside the
   * local part, just after '@', inside the host with no '.' that could end it
   * yet, just after such a '.', or inside the last label.
   */
  datatype ScanState = LocalStart | Local | HostStart | Host | AfterDot | Label

  function Step(st: ScanState, c: char): Option<ScanState>
  {
    if IsSpace(c) then None
    else match st
      case LocalStart => if c == '@' then None else Some(Local)
      case Local => if c == '@' then Some(HostStart) else Some(Local)
      case HostStart => if c == '@' then None else Some(Host)
      case Host => if c == '@' then None else if c == '.' then Some(AfterDot) else Some(Host)
      case AfterDot => if c == '@' then None else Some(Label)
      case Label => if c == '@' then None else Some(Label)
  }

  function Accepts(st: ScanState, s: string): bool
    decreases |s|
  {
    if s == [] then st == Label
    else match Step(st, s[0])
      case None => false
      case Some(next) => Accepts(next, s[1..])
  }

  /** validateEmail: the pattern matched by one left-to-right scan. */
  function ValidateEmail(s: string): (r: bool)
    ensures r <==> EmailShape(s)
  {
    ScanMeansShape(s);
    Accepts(LocalStart, s)
  }

  // What each state accepts, last state first.

  lemma {:induction false} LabelAccepts(t: string)
    ensures Accepts(Label, t) <==> Run(t)
  {
    if t != [] {
      LabelAccepts(t[1..]);
    }
  }

  lemma AfterDotAccepts(t: string)
    ensures Accepts(AfterDot, t) <==> t != [] && Run(t)
  {
    if t != [] {
      LabelAccepts(t[1..]);
    }
  }

  ghost predicate InnerDot(t: string)
  {
    exists k :: 0 <= k < |t| - 1 && t[k] == '.'
  }

  lemma {:induction false} HostAccepts(t: string)
    ensures Accepts(Host, t) <==> Run(t) && InnerDot(t)
  {
    if t != [] {
      if RunChar(t[0]) && t[0] == '.' {
        AfterDotAccepts(t[1..]);
        if |t| >= 2 {
          assert InnerDot(t) by { assert t[0] == '.'; }
        }
      } else if RunChar(t[0]) {
        HostAccepts(t[1..]);
        if InnerDot(t) {
          var k :| 0 <= k < |t| - 1 && t[k] == '.';
          assert t[1..][k - 1] == '.';
        }
        if InnerDot(t[1..]) {
          var k :| 0 <= k < |t[1..]| - 1 && t[1..][k] == '.';
          assert t[k + 1] == '.';
        }
      } else {
        assert !Run(t) by { assert !RunChar(t[0]); }
      }
    }
  }

  /** Host and last label after '@': non-empty runs either side of a '.'. */
  ghost predicate Domain(u: string)
  {
    exists dot :: 0 < dot && dot + 1 < |u| && u[dot] == '.' && Run(u[..dot]) && Run(u[dot + 1..])
  }

  lemma RunSplit(u: string, d: nat)
    requires d < |u|
    ensures Run(u) <==> Run(u[..d]) && RunChar(u[d]) && Run(u[d + 1..])
  {
    if Run(u[..d]) && RunChar(u[d]) && Run(u[d + 1..]) {
      forall i | 0 <= i < |u|
        ensures RunChar(u[i])
      {
        if i < d {
          assert u[i] == u[..d][i];
        } else if i > d {
          assert u[i] == u[d + 1..][i - d - 1];
        }
      }
    }
  }

  lemma HostStartAccepts(u: string)
    ensures Accepts(HostStart, u) <==> Domain(u)
  {
    if u != [] && RunChar(u[0]) {
      var t := u[1..];
      HostAccepts(t);
      if Run(t) && InnerDot(t) {
        var k :| 0 <= k < |t| - 1 && t[k] == '.';
        RunSplit(u, k + 1);
        assert Domain(u) by { assert u[k + 1] == '.'; }
      }
      if Domain(u) {
        var dot :| 0 < dot && dot + 1 < |u| && u[dot] == '.' && Run(u[..dot]) && Run(u[dot + 1..]);
        RunSplit(u, dot);
        assert t[dot - 1] == '.';
        assert InnerDot(t);
      }
    }
  }

  /** What may follow the first character of the local part. */
  ghost predicate LocalRest(t: string)
  {
    exists at :: 0 <= at < |t| && t[at] == '@' && Run(t[..at]) && Domain(t[at + 1..])
  }

  lemma {:induction false} LocalAccepts(t: string)
    ensures Accepts(Local, t) <==> LocalRest(t)
  {
    if t == [] {
    } else if t[0] == '@' {
      assert Accepts(Local, t) == Accepts(HostStart, t[1..]);
      HostStartAccepts(t[1..]);
      LocalRestAtFirst(t);
    } else if RunChar(t[0]) {
      assert Accepts(Local, t) == Accepts(Local, t[1..]);
      LocalAccepts(t[1..]);
      LocalRestShift(t);
    } else {
      assert Accepts(Local, t) == false;
    }
  }

  lemma LocalRestAtFirst(t: string)
    requires t != [] && t[0] == '@'
    ensures LocalRest(t) <==> Domain(t[1..])
  {
    if Domain(t[1..]) {
      assert t[..0] == [];
      assert LocalRest(t);
    }
    if LocalRest(t) {
      var at :| 0 <= at < |t| && t[at] == '@' && Run(t[..at]) && Domain(t[at + 1..]);
      if at > 0 {
        assert t[..at][0] == '@';
      }
    }
  }

  lemma LocalRestIntro(t: string, at: nat)
    requires at < |t| && t[at] == '@' && Run(t[..at]) && Domain(t[at + 1..])
    ensures LocalRest(t)
  {
  }

  lemma LocalRestShift(t: string)
    requires t != [] && RunChar(t[0])
    ensures LocalRest(t) <==> LocalRest(t[1..])
  {
    if LocalRest(t[1..]) {
      LocalRestUp(t);
    }
    if LocalRest(t) {
      LocalRestDown(t);
    }
  }

  lemma RunPrepend(t: string, n: nat)
    requires 0 < n <= |t| && RunChar(t[0]) && Run(t[1..n])
    ensures Run(t[..n])
  {
    var head := t[..n];
    forall i | 0 <= i < |head|
      ensures RunChar(head[i])
    {
      if i > 0 {
        assert head[i] == t[1..n][i - 1];
      }
    }
  }

  lemma LocalRestUp(t: string)
    requires t != [] && RunChar(t[0]) && LocalRest(t[1..])
    ensures LocalRest(t)
  {
    var tail := t[1..];
    var at :| 0 <= at < |tail| && tail[at] == '@' && Run(tail[..at]) && Domain(tail[at + 1..]);
    LocalRestUpAt(t, at);
  }

  lemma LocalRestUpAt(t: string, at: nat)
    requires t != [] && RunChar(t[0]) && at + 1 < |t| && t[at + 1] == '@'
    requires Run(t[1..][..at]) && Domain(t[1..][at + 1..])
    ensures LocalRest(t)
  {
    assert t[1..][..at] == t[1..at + 1];
    RunPrepend(t, at + 1);
    assert t[at + 2..] == t[1..][at + 1..];
    LocalRestIntro(t, at + 1);
  }

  lemma LocalRestDown(t: string)
    requires t != [] && RunChar(t[0]) && LocalRest(t)
    ensures LocalRest(t[1..])
  {
    var tail := t[1..];
    var at :| 0 <= at < |t| && t[at] == '@' && Run(t[..at]) && Domain(t[at + 1..]);
    assert at > 0;
    var head := tail[..at - 1];
    forall i | 0 <= i < |head|
      ensures RunChar(head[i])
    {
      assert head[i] == t[..at][i + 1];
    }
    assert tail[at..] == t[at + 1..];
    LocalRestIntro(tail, at - 1);
  }

  lemma ShapeAfterFirst(s: string)
    requires s != [] && RunChar(s[0])
    ensures EmailShape(s) <==> LocalRest(s[1..])
  {
    if LocalRest(s[1..]) {
      ShapeFromLocalRest(s);
    }
    if EmailShape(s) {
      LocalRestFromShape(s);
    }
  }

  lemma ShapeIntro(s: string, at: nat, dot: nat)
    requires 0 < at && at + 1 < dot && dot + 1 < |s| && s[at] == '@' && s[dot] == '.'
    requires Run(s[..at]) && Run(s[at + 1..dot]) && Run(s[dot + 1..])
    ensures EmailShape(s)
  {
  }

  lemma ShapeFromDomain(s: string, at: nat)
    requires 0 < at < |s| && s[at] == '@' && Run(s[..at]) && Domain(s[at + 1..])
    ensures EmailShape(s)
  {
    var u := s[at + 1..];
    var dot :| 0 < dot && dot + 1 < |u| && u[dot] == '.' && Run(u[..dot]) && Run(u[dot + 1..]);
    assert s[at + 1 + dot] == '.';
    assert s[at + 1..at + 1 + dot] == u[..dot];
    assert s[at + 1 + dot + 1..] == u[dot + 1..];
    ShapeIntro(s, at, at + 1 + dot);
  }

  lemma ShapeFromLocalRest(s: string)
    requires s != [] && RunChar(s[0]) && LocalRest(s[1..])
    ensures EmailShape(s)
  {
    LocalRestUp(s);
    var at :| 0 <= at < |s| && s[at] == '@' && Run(s[..at]) && Domain(s[at + 1..]);
    assert at != 0;
    ShapeFromDomain(s, at);
  }

  lemma LocalRestFromShape(s: string)
    requires s != [] && RunChar(s[0]) && EmailShape(s)
    ensures LocalRest(s[1..])
  {
    var at, dot :| 0 < at && at + 1 < dot && dot + 1 < |s| && s[at] == '@' && s[dot] == '.'
      && Run(s[..at]) && Run(s[at + 1..dot]) && Run(s[dot + 1..]);
    DomainAfter(s, at, dot);
    LocalRestAt(s, at);
  }

  lemma DomainAfter(s: string, at: nat, dot: nat)
    requires at + 1 < dot && dot + 1 < |s| && s[dot] == '.' && Run(s[at + 1..dot]) && Run(s[dot + 1..])
    ensures Domain(s[at + 1..])
  {
    var u := s[at + 1..];
    var d := dot - at - 1;
    assert u[..d] == s[at + 1..dot];
    assert u[d + 1..] == s[dot + 1..];
    assert u[d] == '.';
  }

  /** The witness for LocalRest(s[1..]) from an '@' at index at of s. */
  lemma LocalRestAt(s: string, at: nat)
    requires 0 < at < |s| && s[at] == '@' && Run(s[..at]) && Domain(s[at + 1..])
    ensures LocalRest(s[1..])
  {
    var tail := s[1..];
    var head := tail[..at - 1];
    forall i | 0 <= i < |head|
      ensures RunChar(head[i])
    {
      assert head[i] == s[..at][i + 1];
    }
    assert tail[at..] == s[at + 1..];
    LocalRestIntro(tail, at - 1);
  }

  /** The scan accepts exactly the strings of the regular expression's shape. */
  lemma ScanMeansShape(s: string)
    ensures Accepts(LocalStart, s) <==> EmailShape(s)
  {
    if s == [] {
    } else if RunChar(s[0]) {
      assert Accepts(LocalStart, s) == Accepts(Local, s[1..]);
      LocalAccepts(s[1..]);
      ShapeAfterFirst(s);
    } else {
      assert Accepts(LocalStart, s) == false;
    }
  }

  // ---------------------------------------------------------------------------
  // validateUser and validatePost

  /** `!name || typeof name !== "string" || name.trim().length < 2` does not hold. */
  predicate NameOk(v: Json)
  {
    Truthy(v) && v.Str? && |Trim(v.s)| >= 2
  }

  /**
   * `!email || !validateEmail(email)` does not hold. validateEmail sees its
   * argument converted to a string, and a number or boolean renders without
   * '@', so only a string can pass.
   */
  predicate EmailOk(v: Json)
  {
    Truthy(v) && match v
      case Str(s) => ValidateEmail(s)
      case _ => false
  }

  /** The e-mail check passes exactly for a string of the pattern's shape. */
  lemma EmailOkMeansShape(v: Json)
    ensures EmailOk(v) <==> v.Str? && EmailShape(v.s)
  {
  }

  /** A required text field: a string that is not blank once trimmed. */
  predicate TextOk(v: Json)
  {
    Truthy(v) && v.Str? && |Trim(v.s)| >= 1
  }

  lemma TextOkMeaning(v: Json)
    ensures TextOk(v) <==> v.Str? && Trim(v.s) != ""
  {
    if v.Str? {
      var t := Trim(v.s);
      assert t != "" ==> v.s != "";
      assert |t| >= 1 <==> t != "";
    }
  }

  /** `!authorId || typeof authorId !== "number"` does not hold. */
  predicate AuthorIdOk(v: Json)
  {
    Truthy(v) && v.Num?
  }

  /** The list a check pushes onto: nothing when it passes, its message when it fails. */
  function Pushed(pass: bool, message: string): seq<string>
  {
    if pass then [] else [message]
  }

  lemma TwoChecks(a: string, pa: bool, b: string, pb: bool)
    requires a != b
    ensures var r := Pushed(pa, a) + Pushed(pb, b);
      && (a in r <==> !pa) && (b in r <==> !pb)
      && (r == [] <==> pa && pb)
      && Subseq(r, [a, b])
  {
    SubseqConcat(Pushed(pa, a), [a], Pushed(pb, b), [b]);
  }

  lemma ThreeChecks(a: string, pa: bool, b: string, pb: bool, c: string, pc: bool)
    requires a != b && a != c && b != c
    ensures var r := Pushed(pa, a) + Pushed(pb, b) + Pushed(pc, c);
      && (a in r <==> !pa) && (b in r <==> !pb) && (c in r <==> !pc)
      && (r == [] <==> pa && pb && pc)
      && Subseq(r, [a, b, c])
  {
    TwoChecks(a, pa, b, pb);
    SubseqConcat(Pushed(pa, a) + Pushed(pb, b), [a, b], Pushed(pc, c), [c]);
    assert [a, b] + [c] == [a, b, c];
  }

  /** The messages validateUser returns for a body, in the order it pushes them. */
  function UserErrors(body: UserBody): (r: seq<string>)
    ensures NameMessage in r <==> !(body.name.Str? && |Trim(body.name.s)| >= 2)
    ensures EmailMessage in r <==> !(body.email.Str? && EmailShape(body.email.s))
    ensures r == [] <==> NameOk(body.name) && EmailOk(body.email)
    ensures Subseq(r, [NameMessage, EmailMessage])
  {
    EmailOkMeansShape(body.email);
    assert NameMessage[0] != EmailMessage[0];
    TwoChecks(NameMessage, NameOk(body.name), EmailMessage, EmailOk(body.email));
    Pushed(NameOk(body.name), NameMessage) + Pushed(EmailOk(body.email), EmailMessage)
  }

  /** validateUser: builds the list of messages one check at a time. */
  method ValidateUser(body: UserBody) returns (errors: seq<string>)
    ensures errors == UserErrors(body)
  {
    errors := [];
    if !Truthy(body.name) || !body.name.Str? || |Trim(body.name.s)| < 2 {
      errors := errors + [NameMessage];
    }
    assert errors == Pushed(NameOk(body.name), NameMessage);
    if !Truthy(body.email) || !(body.email.Str? && ValidateEmail(body.email.s)) {
      errors := errors + [EmailMessage];
    }
  }

  /** The messages validatePost returns for a body, in the order it pushes them. */
  function PostErrors(body: PostBody): (r: seq<string>)
    ensures TitleMessage in r <==> !(body.title.Str? && Trim(body.title.s) != "")
    ensures ContentMessage in r <==> !(body.content.Str? && Trim(body.content.s) != "")
    ensures AuthorIdMessage in r <==> !(body.authorId.Num? && body.authorId.n != 0)
    ensures r == [] <==> TextOk(body.title) && TextOk(body.content) && AuthorIdOk(body.authorId)
    ensures Subseq(r, [TitleMessage, ContentMessage, AuthorIdMessage])
  {
    TextOkMeaning(body.title);
    TextOkMeaning(body.content);
    assert TitleMessage[0] != ContentMessage[0] && TitleMessage[0] != AuthorIdMessage[0];
    assert ContentMessage[0] != AuthorIdMessage[0];
    ThreeChecks(TitleMessage, TextOk(body.title), ContentMessage, TextOk(body.content),
      AuthorIdMessage, AuthorIdOk(body.authorId));
    Pushed(TextOk(body.title), TitleMessage) + Pushed(TextOk(body.content), ContentMessage)
      + Pushed(AuthorIdOk(body.authorId), AuthorIdMessage)
  }

  /** validatePost: builds the list of messages one check at a time. */
  method ValidatePost(body: PostBody) returns (errors: seq<string>)
    ensures errors == PostErrors(body)
  {
    errors := [];
    if !Truthy(body.title) || !body.title.Str? || |Trim(body.title.s)| < 1 {
      errors := errors + [TitleMessage];
    }
    assert errors == Pushed(TextOk(body.title), TitleMessage);
    if !Truthy(body.content) || !body.content.Str? || |Trim(body.content.s)| < 1 {
      errors := errors + [ContentMessage];
    }
    assert errors == Pushed(TextOk(body.title), TitleMessage) + Pushed(TextOk(body.content), ContentMessage);
    if !Truthy(body.authorId) || !body.authorId.Num? {
      errors := errors + [AuthorIdMessage];
    }
  }
}
