/** The STOMP command enumeration: a closed set of fourteen commands, each with
    the ordinal its declaration position gives it and its upper-case wire token. */
module StompCommands {
  import opened Wrappers

  datatype Command =
    | ACK | NACK | ABORT | BEGIN | COMMIT | CONNECT | CONNECTED
    | DISCONNECT | MESSAGE | RECEIPT | SUBSCRIBE | UNSUBSCRIBE | SEND | ERROR

  /** The commands in declaration order. */
  const AllCommands: seq<Command> :=
    [ACK, NACK, ABORT, BEGIN, COMMIT, CONNECT, CONNECTED,
     DISCONNECT, MESSAGE, RECEIPT, SUBSCRIBE, UNSUBSCRIBE, SEND, ERROR]

  /** The numeric value the enumeration gives a command. */
  function Ordinal(c: Command): nat
  {
    match c
    case ACK => 0
    case NACK => 1
    case ABORT => 2
    case BEGIN => 3
    case COMMIT => 4
    case CONNECT => 5
    case CONNECTED => 6
    case DISCONNECT => 7
    case MESSAGE => 8
    case RECEIPT => 9
    case SUBSCRIBE => 10
    case UNSUBSCRIBE => 11
    case SEND => 12
    case ERROR => 13
  }

  /** Whether the command value passes a JavaScript truth test (`!command` is
      false): every command whose ordinal is not 0. */
  predicate Truthy(c: Command)
  {
    Ordinal(c) != 0
  }

  /** The wire token of a command (the enumeration's reverse mapping). */
  function Name(c: Command): string
  {
    match c
    case ACK => "ACK"
    case NACK => "NACK"
    case ABORT => "ABORT"
    case BEGIN => "BEGIN"
    case COMMIT => "COMMIT"
    case CONNECT => "CONNECT"
    case CONNECTED => "CONNECTED"
    case DISCONNECT => "DISCONNECT"
    case MESSAGE => "MESSAGE"
    case RECEIPT => "RECEIPT"
    case SUBSCRIBE => "SUBSCRIBE"
    case UNSUBSCRIBE => "UNSUBSCRIBE"
    case SEND => "SEND"
    case ERROR => "ERROR"
  }

  /** The first command of `cs` whose token is `s`, if any. */
  function FindByName(s: string, cs: seq<Command>): (r: Option<Command>)
    ensures r.Some? ==> r.value in cs && Name(r.value) == s
    ensures r.None? ==> forall c :: c in cs ==> Name(c) != s
  {
    if cs == [] then None
    else if Name(cs[0]) == s then Some(cs[0])
    else FindByName(s, cs[1..])
  }

  /** The command a token names, if any (the enumeration's forward mapping,
      restricted to the fourteen command names). */
  function FromName(s: string): Option<Command>
  {
    FindByName(s, AllCommands)
  }

  /** There are exactly fourteen commands, numbered 0 to 13 in declaration order. */
  lemma OrdinalsFollowDeclarationOrder()
    ensures |AllCommands| == 14
    ensures forall i :: 0 <= i < |AllCommands| ==> Ordinal(AllCommands[i]) == i
    ensures forall c: Command :: c in AllCommands
  {
    forall c: Command ensures c in AllCommands {
      assert AllCommands[Ordinal(c)] == c;
    }
  }

  /** ACK is the only command that fails a truth test. */
  lemma OnlyAckIsFalsy(c: Command)
    ensures !Truthy(c) <==> c == ACK
  {
  }

  /** Different commands have different tokens. */
  lemma NameInjective(a: Command, b: Command)
    requires Name(a) == Name(b)
    ensures a == b
  {
    assert |Name(a)| == |Name(b)| && Name(a)[0] == Name(b)[0];
    if |Name(a)| > 4 {
      assert Name(a)[|Name(a)| - 1] == Name(b)[|Name(b)| - 1];
    }
  }

  /** Parsing the token of a command gives that command back, and a token parses
      to a command exactly when it is that command's token. */
  lemma NameRoundTrip(c: Command, s: string)
    ensures FromName(Name(c)) == Some(c)
    ensures FromName(s) == Some(c) <==> Name(c) == s
  {
    OrdinalsFollowDeclarationOrder();
    var r := FromName(Name(c));
    assert r.Some?;
    NameInjective(r.value, c);
  }

  /** Only the fourteen command tokens denote commands. */
  lemma FromNameOnlyNames(s: string)
    ensures FromName(s).Some? <==> exists c: Command :: Name(c) == s
  {
    if FromName(s).Some? {
      NameRoundTrip(FromName(s).value, s);
    }
  }

  /** Every command token is a non-empty run of upper-case ASCII letters. */
  lemma NameIsUpperCase(c: Command)
    ensures |Name(c)| > 0
    ensures forall i :: 0 <= i < |Name(c)| ==> 'A' <= Name(c)[i] <= 'Z'
  {
  }
}
