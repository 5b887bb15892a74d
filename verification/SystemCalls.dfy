/** What the system may answer to the writes and sends of src/aof.cpp and src/tcp_server.cpp. */
module SystemCalls {

  /** Interrupted before anything was taken, not ready, or some bytes taken; none at all is a failure. */
  datatype Response = Interrupted | WouldBlock | Took(count: nat)

  datatype Stop = Done | Blocked | Broken

  /** How many bytes went out in the end, and why it stopped there. */
  datatype Transfer = Transfer(count: nat, stop: Stop)

  function Min(a: nat, b: nat): nat {
    if a < b then a else b
  }

  /**
   * The loop both share: offer what is left until nothing is, or until the system stops
   * taking. Once the listed responses are used up, the system takes everything.
   */
  function Offer(total: nat, done: nat, responses: seq<Response>): (t: Transfer)
    requires done <= total
    ensures done <= t.count <= total
    ensures t.count == total <==> t.stop.Done?
    decreases |responses|
  {
    if done == total then Transfer(total, Done)
    else if responses == [] then Transfer(total, Done)
    else
      match responses[0]
      case Interrupted => Offer(total, done, responses[1..])
      case WouldBlock => Transfer(done, Blocked)
      case Took(count) =>
        if count == 0 then Transfer(done, Broken) else Offer(total, Min(total, done + count), responses[1..])
  }

  /** The next response; the system takes everything when no response is listed. */
  function Next(responses: seq<Response>, i: nat, left: nat): Response {
    if i < |responses| then responses[i] else Took(left)
  }

  /** One turn of the loop. */
  lemma OfferOnce(total: nat, done: nat, responses: seq<Response>, i: nat)
    requires done < total && i <= |responses|
    ensures Offer(total, done, responses[i..]) ==
      match Next(responses, i, total - done)
      case Interrupted => Offer(total, done, responses[Min(|responses|, i + 1)..])
      case WouldBlock => Transfer(done, Blocked)
      case Took(count) =>
        if count == 0 then Transfer(done, Broken)
        else Offer(total, Min(total, done + count), responses[Min(|responses|, i + 1)..])
  {
    if i < |responses| {
      assert responses[i..][1..] == responses[i + 1..];
    }
  }

  lemma OfferNothing(total: nat, responses: seq<Response>)
    ensures Offer(total, total, responses) == Transfer(total, Done)
  {
  }
}
