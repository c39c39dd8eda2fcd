/** The mock client's load generator: whose turn it is, and how long to wait in between. */
module LoadGenerator {
  import opened Arithmetic

  /** How many of k messages client i of n has sent. */
  function Share(i: nat, k: nat, n: nat): nat
    requires i < n
  {
    (k + n - 1 - i) / n
  }

  /** The sending loop, stopped after k messages. The clients' sends are counted in an array. */
  method SendRounds(n: nat, k: nat) returns (sent: array<nat>)
    requires 0 < n
    ensures sent.Length == n
    ensures forall i :: 0 <= i < n ==> sent[i] == Share(i, k, n)
  {
    sent := new nat[n](_ => 0);
    var clientIndex := 0;
    ghost var rounds := 0;
    for j := 0 to k
      invariant clientIndex < n && j == rounds * n + clientIndex
      invariant forall i :: 0 <= i < n ==> sent[i] == rounds + if i < clientIndex then 1 else 0
    {
      sent[clientIndex] := sent[clientIndex] + 1;
      clientIndex := clientIndex + 1;
      if clientIndex >= n {
        clientIndex := 0;
        rounds := rounds + 1;
      }
    }
    forall i | 0 <= i < n ensures sent[i] == Share(i, k, n) {
      ShareOfRounds(i, n, rounds, clientIndex);
    }
  }

  lemma ShareOfRounds(i: nat, n: nat, rounds: nat, index: nat)
    requires i < n && index < n
    ensures Share(i, rounds * n + index, n) == rounds + if i < index then 1 else 0
  {
    var q := rounds + if i < index then 1 else 0;
    assert q * n == rounds * n + if i < index then n else 0;
    QuotientIs(rounds * n + index + n - 1 - i, n, q);
  }

  /** No client is ever more than one message ahead of another. */
  lemma Balanced(i: nat, j: nat, k: nat, n: nat)
    requires i < n && j < n
    ensures Share(i, k, n) <= Share(j, k, n) + 1
  {
    var rounds, index := k / n, k % n;
    assert k == rounds * n + index;
    ShareOfRounds(i, n, rounds, index);
    ShareOfRounds(j, n, rounds, index);
  }

  /** What the clients below i have sent together. */
  function SentBelow(i: nat, k: nat, n: nat): nat
    requires i <= n
  {
    if i == 0 then 0 else SentBelow(i - 1, k, n) + Share(i - 1, k, n)
  }

  lemma {:induction false} SentBelowIs(i: nat, rounds: nat, index: nat, n: nat)
    requires i <= n && index < n
    ensures SentBelow(i, rounds * n + index, n) == rounds * i + if i < index then i else index
  {
    hide Share;
    if i > 0 {
      SentBelowIs(i - 1, rounds, index, n);
      ShareOfRounds(i - 1, n, rounds, index);
      assert rounds * i == rounds * (i - 1) + rounds;
    }
  }

  /** Message k, counted from zero, is sent by client k modulo n; and after k messages all k of them have been sent. */
  lemma TakesTurns(i: nat, k: nat, n: nat)
    requires i < n
    ensures Share(i, 0, n) == 0
    ensures Share(i, k + 1, n) == Share(i, k, n) + if i == k % n then 1 else 0
    ensures SentBelow(n, k, n) == k
  {
    hide Share;
    var rounds, index := k / n, k % n;
    assert k == rounds * n + index;
    ShareOfRounds(i, n, 0, 0);
    ShareOfRounds(i, n, rounds, index);
    if index + 1 < n {
      ShareOfRounds(i, n, rounds, index + 1);
    } else {
      assert k + 1 == (rounds + 1) * n + 0;
      ShareOfRounds(i, n, rounds + 1, 0);
    }
    SentBelowIs(n, rounds, index, n);
  }

  const MINIMUM_MESSAGE_DELAY: nat := 5

  /** The pause in milliseconds, for a frequency per client; only a pause of nothing is replaced by the minimum. */
  function Delay(frequency: nat, clients: nat): int
    requires 0 < frequency && 0 < clients
  {
    var delay := 1000 / frequency / clients;
    if 0 >= delay then MINIMUM_MESSAGE_DELAY else delay
  }

  /** Dividing twice is dividing once by the product. */
  lemma TwoQuotients(x: nat, d: nat, e: nat)
    requires 0 < d && 0 < e
    ensures x / d / e * (d * e) <= x < (x / d / e + 1) * (d * e)
  {
    var a := x / d;
    var q := a / e;
    assert a * d <= x < (a + 1) * d;
    assert q * e <= a && a + 1 <= (q + 1) * e;
    Scale(q * e, a, d);
    Scale(a + 1, (q + 1) * e, d);
    assert (q * e) * d == q * (d * e);
    assert ((q + 1) * e) * d == (q + 1) * (d * e);
  }

  /**
   In a second at least as many pauses fit as messages are requested exactly if no more than a thousand are. The pause
   is then the longest one that does, and the offered rate below twice the requested one.
   */
  lemma DelayKeepsRate(frequency: nat, clients: nat)
    requires 0 < frequency && 0 < clients
    ensures var d, rate := Delay(frequency, clients), frequency * clients;
            && (d * rate <= 1000 <==> rate <= 1000)
            && (rate <= 1000 ==> 1000 < (d + 1) * rate && 1000 < 2 * d * rate)
  {
    var q, rate := 1000 / frequency / clients, frequency * clients;
    TwoQuotients(1000, frequency, clients);
    if q <= 0 {
      Scale(q + 1, 1, rate);
    } else {
      Scale(1, q, rate);
    }
    Distribute(q, 1, rate);
    assert 2 * q * rate == 2 * (q * rate);
  }

  /** Above a thousand messages a second the pause is longer than for all rates from 201 to a thousand. */
  lemma DelayJumps(frequency: nat, clients: nat)
    requires 0 < frequency && 0 < clients
    ensures var d, rate := Delay(frequency, clients), frequency * clients;
            && (1000 < rate ==> d == MINIMUM_MESSAGE_DELAY)
            && (200 < rate <= 1000 ==> 1 <= d < MINIMUM_MESSAGE_DELAY)
  {
    var q, rate := 1000 / frequency / clients, frequency * clients;
    TwoQuotients(1000, frequency, clients);
    if q <= 0 {
      Scale(q + 1, 1, rate);
    } else if 5 <= q {
      Scale(5, q, rate);
    } else {
      Scale(1, q, rate);
    }
  }

  /** For instance, 1001 messages a second for one client: five milliseconds' pause, for two hundred of them. */
  lemma TooFast()
    ensures Delay(1001, 1) == 5 && Delay(1001, 1) * (1001 * 1) > 1000
  {
  }
}
