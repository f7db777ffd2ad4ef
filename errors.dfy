/** The exceptions the services throw, and the text of their messages.

    Every "not found" exception of the registry is built from the entity's
    title and the id that was looked up: the title, " with id ", the id in
    decimal (as Java's Integer.toString writes it) and " not found". */
module Errors {
  import opened Wrappers

  /** The three entity kinds, one per "...EntityNotFoundException". */
  datatype Kind = CourseKind | TeacherKind | StudentKind

  datatype Error =
    | NotFound(kind: Kind, id: int)
      /** A single-result repository query matched several distinct rows. */
    | NonUniqueResult(count: nat)

  /** The title each exception subclass passes to its base class. */
  function Title(k: Kind): string
  {
    match k
    case CourseKind => "Course"
    case TeacherKind => "Teacher"
    case StudentKind => "Student"
  }

  predicate IsDigit(c: char)
  {
    '0' <= c <= '9'
  }

  predicate AllDigits(s: string)
  {
    forall i :: 0 <= i < |s| ==> IsDigit(s[i])
  }

  function DigitChar(d: nat): (c: char)
    requires d < 10
    ensures IsDigit(c) && c as int - '0' as int == d
  {
    ('0' as int + d) as char
  }

  /** The decimal digits of n, most significant first, without leading zeros. */
  function Digits(n: nat): (s: string)
    ensures |s| >= 1 && AllDigits(s)
    ensures n > 0 ==> s[0] != '0'
    decreases n
  {
    if n < 10 then [DigitChar(n)] else Digits(n / 10) + [DigitChar(n % 10)]
  }

  /** Integer.toString: a minus sign, then the digits of the magnitude. */
  function Decimal(i: int): string
  {
    if i < 0 then "-" + Digits(-i) else Digits(i)
  }

  /** The value of a string of decimal digits (the partner of Digits). */
  function ParseDigits(s: string): nat
    requires AllDigits(s)
    decreases |s|
  {
    if s == [] then 0
    else ParseDigits(s[..|s| - 1]) * 10 + (s[|s| - 1] as int - '0' as int)
  }

  /** The value of an optionally signed decimal numeral, if it is one. */
  function ParseDecimal(s: string): Option<int>
  {
    if |s| >= 2 && s[0] == '-' && AllDigits(s[1..]) then Some(-(ParseDigits(s[1..]) as int))
    else if |s| >= 1 && AllDigits(s) then Some(ParseDigits(s) as int)
    else None
  }

  lemma {:induction false} ParseDigitsOfDigits(n: nat)
    ensures ParseDigits(Digits(n)) == n
    decreases n
  {
    var s := Digits(n);
    if n >= 10 {
      ParseDigitsOfDigits(n / 10);
      assert s[..|s| - 1] == Digits(n / 10);
    }
  }

  /** Decimal loses nothing: the numeral it writes reads back as the same integer. */
  lemma DecimalRoundTrip(i: int)
    ensures ParseDecimal(Decimal(i)) == Some(i)
  {
    if i < 0 {
      var s := Decimal(i);
      assert s[1..] == Digits(-i);
      ParseDigitsOfDigits(-i);
    } else {
      ParseDigitsOfDigits(i);
    }
  }

  const Infix: string := " with id "
  const Suffix: string := " not found"

  /** The message of a "not found" exception for an entity of kind k and id. */
  function NotFoundMessage(k: Kind, id: int): string
  {
    Title(k) + Infix + Decimal(id) + Suffix
  }

  /** Reads back the kind and id from the part of a message before its suffix. */
  function ParseHead(head: string, k: Kind): Option<int>
  {
    var p := Title(k) + Infix;
    if |p| <= |head| && head[..|p|] == p then ParseDecimal(head[|p|..]) else None
  }

  /** Reads back the kind and the id from a "not found" message. */
  function ParseNotFoundMessage(m: string): Option<(Kind, int)>
  {
    if |m| < |Suffix| || m[|m| - |Suffix|..] != Suffix then None
    else
      var head := m[..|m| - |Suffix|];
      match ParseHead(head, CourseKind)
      case Some(id) => Some((CourseKind, id))
      case None =>
        match ParseHead(head, TeacherKind)
        case Some(id) => Some((TeacherKind, id))
        case None =>
          match ParseHead(head, StudentKind)
          case Some(id) => Some((StudentKind, id))
          case None => None
  }

  lemma ParseHeadOfOwnTitle(k: Kind, id: int)
    ensures ParseHead(Title(k) + Infix + Decimal(id), k) == Some(id)
  {
    var p := Title(k) + Infix;
    var head := p + Decimal(id);
    assert head[..|p|] == p;
    assert head[|p|..] == Decimal(id);
    DecimalRoundTrip(id);
  }

  lemma ParseHeadOfOtherTitle(k: Kind, j: Kind, id: int)
    requires k != j
    ensures ParseHead(Title(k) + Infix + Decimal(id), j) == None
  {
    var head := Title(k) + Infix + Decimal(id);
    var p := Title(j) + Infix;
    if |p| <= |head| {
      assert head[0] == Title(k)[0] && p[0] == Title(j)[0];
      assert head[..|p|][0] != p[0];
    }
  }

  /** The message determines the failed lookup: the kind and the id can be read back. */
  lemma NotFoundMessageRoundTrip(k: Kind, id: int)
    ensures ParseNotFoundMessage(NotFoundMessage(k, id)) == Some((k, id))
  {
    var head := Title(k) + Infix + Decimal(id);
    var m := NotFoundMessage(k, id);
    assert m == head + Suffix;
    assert m[|m| - |Suffix|..] == Suffix;
    assert m[..|m| - |Suffix|] == head;
    ParseHeadOfOwnTitle(k, id);
    match k
    case CourseKind =>
    case TeacherKind =>
      ParseHeadOfOtherTitle(k, CourseKind, id);
    case StudentKind =>
      ParseHeadOfOtherTitle(k, CourseKind, id);
      ParseHeadOfOtherTitle(k, TeacherKind, id);
  }

  /** Two "not found" messages are equal only for the same kind and id. */
  lemma NotFoundMessageInjective(k1: Kind, id1: int, k2: Kind, id2: int)
    requires NotFoundMessage(k1, id1) == NotFoundMessage(k2, id2)
    ensures k1 == k2 && id1 == id2
  {
    NotFoundMessageRoundTrip(k1, id1);
    NotFoundMessageRoundTrip(k2, id2);
  }
}
