/** The names used in the key-value store. Protocol steps use the structured `Key`; `Render`
    gives the string that the code stores under, and no two keys share one. */
module Keys {

  datatype Key = ServerNum | Barrier(name: string) | Pair(from: nat, to: nat)

  /** `setKey`: where node `me` publishes what `remote` needs. */
  function SetKey(me: nat, remote: nat): Key {
    Pair(me, remote)
  }

  /** `getKey`: where node `me` looks for what `remote` published. */
  function GetKey(me: nat, remote: nat): Key {
    Pair(remote, me)
  }

  function Digit(d: nat): char
    requires d < 10
  {
    "0123456789"[d]
  }

  /** `std::to_string` */
  function Decimal(n: nat): (s: string)
    ensures |s| > 0
    ensures forall i :: 0 <= i < |s| ==> s[i] in "0123456789"
  {
    if n < 10 then [Digit(n)] else Decimal(n / 10) + [Digit(n % 10)]
  }

  function Render(k: Key): string {
    match k
    case ServerNum => "serverNum"
    case Barrier(name) => "barrier-" + name
    case Pair(from, to) => Decimal(from) + "-" + Decimal(to)
  }

  /** The number that a string of digits stands for. */
  function Number(s: string): nat
    requires forall i :: 0 <= i < |s| ==> '0' <= s[i] <= '9'
  {
    if s == [] then 0 else 10 * Number(s[..|s| - 1]) + (s[|s| - 1] as int - '0' as int)
  }

  lemma DigitRange(d: nat)
    requires d < 10
    ensures Digit(d) == (48 + d) as char
  {
    assert "0123456789" == ['0', '1', '2', '3', '4', '5', '6', '7', '8', '9'];
  }

  /** The digits are the decimal ones of the number, without a leading zero. */
  lemma {:induction false} DecimalReads(n: nat)
    ensures forall i :: 0 <= i < |Decimal(n)| ==> '0' <= Decimal(n)[i] <= '9'
    ensures Number(Decimal(n)) == n && (n > 0 ==> Decimal(n)[0] != '0')
    decreases n
  {
    if n < 10 {
      DigitRange(n);
      assert Decimal(n)[..0] == [];
    } else {
      DecimalReads(n / 10);
      DigitRange(n % 10);
      assert Decimal(n)[..|Decimal(n)| - 1] == Decimal(n / 10);
    }
  }

  /** A node publishes for a peer under "me-peer" and looks under "peer-me"; the counter of ids is
      "serverNum", and a barrier's counter has the prefix "barrier-". */
  lemma Names(me: nat, remote: nat, name: string)
    ensures Render(SetKey(me, remote)) == Render(GetKey(remote, me)) == Decimal(me) + "-" + Decimal(remote)
    ensures Render(ServerNum) == "serverNum" && Render(Barrier(name)) == "barrier-" + name
    ensures (forall i :: 0 <= i < |Decimal(me)| ==> '0' <= Decimal(me)[i] <= '9') && Number(Decimal(me)) == me
  {
    DecimalReads(me);
    DecimalReads(remote);
  }

  lemma DigitInjective(a: nat, b: nat)
    requires a < 10 && b < 10 && Digit(a) == Digit(b)
    ensures a == b
  {
    var digits := "0123456789";
    assert forall i, j :: 0 <= i < j < 10 ==> digits[i] != digits[j];
  }

  lemma {:induction false} DecimalInjective(a: nat, b: nat)
    requires Decimal(a) == Decimal(b)
    ensures a == b
  {
    var s, t := Decimal(a), Decimal(b);
    assert (a < 10 <==> |s| == 1) && (b < 10 <==> |t| == 1);
    if a < 10 && b < 10 {
      DigitInjective(a, b);
    } else if a >= 10 && b >= 10 {
      assert s[..|s| - 1] == Decimal(a / 10) && t[..|t| - 1] == Decimal(b / 10);
      assert s[|s| - 1] == Digit(a % 10) && t[|t| - 1] == Digit(b % 10);
      DecimalInjective(a / 10, b / 10);
      DigitInjective(a % 10, b % 10);
    }
  }

  lemma FirstDash(a: string, b: string, x: string, y: string)
    requires '-' !in a && '-' !in x
    requires a + "-" + b == x + "-" + y
    ensures a == x && b == y
  {
    var s := a + "-" + b;
    assert s[|a|] == '-' && (x + "-" + y)[|x|] == '-';
    assert forall i :: 0 <= i < |a| ==> s[i] == a[i] != '-';
    assert forall i :: 0 <= i < |x| ==> s[i] == x[i] != '-';
    assert |a| == |x|;
    assert s[..|a|] == a && s[..|a|] == x;
    assert s[|a| + 1..] == b && s[|a| + 1..] == y;
  }

  lemma FirstLetter(k: Key)
    ensures Render(k) != []
    ensures match k case ServerNum => Render(k)[0] == 's' case Barrier(_) => Render(k)[0] == 'b' case Pair(_, _) => Render(k)[0] in "0123456789"
  {
    if k.Pair? {
      assert Render(k)[0] == Decimal(k.from)[0];
    }
  }

  /** No two keys are stored under the same name. */
  lemma RenderInjective(x: Key, y: Key)
    requires Render(x) == Render(y)
    ensures x == y
  {
    FirstLetter(x);
    FirstLetter(y);
    if x.Pair? {
      FirstDash(Decimal(x.from), Decimal(x.to), Decimal(y.from), Decimal(y.to));
      DecimalInjective(x.from, y.from);
      DecimalInjective(x.to, y.to);
    } else if x.Barrier? {
      assert Render(x)[8..] == x.name && Render(y)[8..] == y.name;
    }
  }
}
