// The callbacks a radix tree makes, as objects that remember their calls.
module Callbacks {
  import opened AdaptiveTree

  // The radix_value_dtr callback: it sees the values given to it, in order.
  class Destructor {
    var seen: seq<RadixValue>

    constructor ()
      ensures seen == []
    {
      seen := [];
    }

    method Call(v: RadixValue)
      modifies this
      ensures seen == old(seen) + [v]
    {
      seen := seen + [v];
    }
  }

  // The visit callback: it remembers what it was shown and what it answered.
  class Visitor {
    var seen: seq<RadixValue>
    var answers: seq<bool>

    constructor ()
      ensures seen == [] && answers == []
    {
      seen, answers := [], [];
    }

    method Visit(v: RadixValue) returns (go: bool)
      modifies this
      ensures seen == old(seen) + [v] && answers == old(answers) + [go]
    {
      go := *;
      seen, answers := seen + [v], answers + [go];
    }
  }
}
