/**
 The algebra that chains the equation of one step of a run with the
 equation of the rest of the run, for the queues and buffers (sequences)
 and for the tasks held by workers (multisets).
 */
module Splices {

  /**
   If one step moves `out` from the front of `b0` and adds `added` at its
   back, leaving `b1`, and the rest of the run does the same from `b1` to
   `b2`, then the whole run does it from `b0` to `b2`.
   */
  lemma SpliceFifo<X>(out: seq<X>, added: seq<X>, b0: seq<X>, b1: seq<X>, outs: seq<X>, ins: seq<X>, b2: seq<X>)
    requires out + b1 == b0 + added
    requires outs + b2 == b1 + ins
    ensures (out + outs) + b2 == b0 + (added + ins)
  {
    calc {
      (out + outs) + b2;
      out + (outs + b2);
      out + (b1 + ins);
      (out + b1) + ins;
      (b0 + added) + ins;
    }
  }

  /** Adding the same multiset on the left keeps an exchange balanced. */
  lemma ShiftMultiset<X>(a: multiset<X>, b: multiset<X>, c: multiset<X>, out: multiset<X>, added: multiset<X>)
    requires b + out == c + added
    ensures (a + b) + out == (a + c) + added
  {
    calc {
      (a + b) + out;
      a + (b + out);
      a + (c + added);
    }
  }

  /**
   If one step turns held `h0` plus taken `d` into finished `c` plus held
   `h1`, and the rest of the run does the same from `h1` to `h2`, then the
   whole run does it from `h0` to `h2`.
   */
  lemma SpliceAccounts<X>(h0: multiset<X>, d: multiset<X>, c: multiset<X>, h1: multiset<X>,
                          ds: multiset<X>, cs: multiset<X>, h2: multiset<X>)
    requires h0 + d == c + h1
    requires h1 + ds == cs + h2
    ensures h0 + (d + ds) == (c + cs) + h2
  {
    calc {
      h0 + (d + ds);
      (h0 + d) + ds;
      (c + h1) + ds;
      c + (h1 + ds);
      c + (cs + h2);
    }
  }
}
