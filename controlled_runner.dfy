/**
  The controlled runner stub: a registry of active users next to a
  concurrency limit and a semaphore channel. The channel is only ever
  allocated, with a fixed buffer size; it is modelled by that capacity.
 */
module Runner {

  /** The buffer size the semaphore channel is made with, whatever limit the
      runner is created with. */
  const SemCapacity: nat := 100

  class Runner {
    // capacity of the buffered channel `sem`
    var semCapacity: nat
    // keys of the `users` map; its values are the empty struct
    var users: set<string>
    var concurrencyLimit: int

    /** `New(concurrencyLimit)`: no users yet, the given limit recorded, and
        a semaphore channel of capacity 100. */
    constructor (concurrencyLimit: int)
      ensures users == {}
      ensures this.concurrencyLimit == concurrencyLimit
      ensures semCapacity == SemCapacity
    {
      semCapacity := SemCapacity;
      users := {};
      this.concurrencyLimit := concurrencyLimit;
    }

    /** `AddUser(user)`: inserts `user` into the user set. Inserting a user
        who is already present changes nothing; no other user and no other
        field is touched. */
    method AddUser(user: string)
      modifies this
      ensures user in users
      ensures users == old(users) + {user}
      ensures user in old(users) ==> users == old(users)
      ensures forall u :: u != user ==> (u in users <==> u in old(users))
      ensures concurrencyLimit == old(concurrencyLimit)
      ensures semCapacity == old(semCapacity)
    {
      users := users + {user};
    }
  }
}
