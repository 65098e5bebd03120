/**
  The hash queues of in-core inodes (src/incoreInodeOps/hashQ.c). The hash itself is any
  fixed function into the queue numbers.
 */
module HashQueue {
  import opened NodeList

  const INODE_HASH_SIZE: nat := 8

  // The list that starts at `head` along hashNext, and back along hashPrev, is `s`.
  ghost predicate Chain(head: Node?, s: seq<Node>)
    reads s`hashNext, s`hashPrev
  {
    && (forall i, j :: 0 <= i < j < |s| ==> s[i] != s[j])
    && (s == [] ==> head == null)
    && (s != [] ==>
          && head == s[0]
          && s[0].hashPrev == null
          && s[|s| - 1].hashNext == null
          && (forall i {:trigger s[i].hashNext} :: 0 <= i < |s| - 1 ==> s[i].hashNext == s[i + 1])
          && (forall i {:trigger s[i].hashPrev} :: 0 < i < |s| ==> s[i].hashPrev == s[i - 1]))
  }

  // Takes `node` out of one chain; a node with no links that is not in the chain stays out.
  method Unchain(head: Node?, node: Node, ghost s: seq<Node>) returns (newHead: Node?, ghost rest: seq<Node>)
    requires Chain(head, s)
    requires node !in s ==> node.hashNext == null && node.hashPrev == null
    modifies s`hashNext, s`hashPrev, node`hashNext, node`hashPrev
    ensures Chain(newHead, rest) && node.hashNext == null && node.hashPrev == null
    ensures node !in s ==> rest == s
    ensures forall x :: x in rest <==> x in s && x != node
  {
    rest := s;
    newHead := head;
    ghost var i := 0;
    if node in s {
      i :| 0 <= i < |s| && s[i] == node;
      rest := Without(s, i);
      WithoutMembers(s, i);
    }
    if newHead == node {
      newHead := node.hashNext;
    }
    if node.hashNext != null {
      node.hashNext.hashPrev := node.hashPrev;
    }
    if node.hashPrev != null {
      node.hashPrev.hashNext := node.hashNext;
    }
    node.hashNext := null;
    node.hashPrev := null;
  }

  lemma WithoutMembers<T>(s: seq<T>, i: nat)
    requires i < |s| && forall j, k :: 0 <= j < k < |s| ==> s[j] != s[k]
    ensures forall x :: x in Without(s, i) <==> x in s && x != s[i]
  {
    forall x | x in s && x != s[i]
      ensures x in Without(s, i)
    {
      var k :| 0 <= k < |s| && s[k] == x;
      if k < i {
        assert Without(s, i)[k] == x;
      } else {
        assert Without(s, i)[k - 1] == x;
      }
    }
  }

  // Puts `node` in front of one chain.
  method ChainFirst(head: Node?, node: Node, ghost s: seq<Node>)
    requires Chain(head, s) && node !in s
    modifies s`hashNext, s`hashPrev, node`hashNext, node`hashPrev
    ensures Chain(node, [node] + s)
  {
    node.hashNext := head;
    if head != null {
      head.hashPrev := node;
    }
    node.hashPrev := null;
  }

  // `home` tells which of the chains each node is in.
  ghost predicate Homes(chains: seq<seq<Node>>, home: map<Node, nat>) {
    && |chains| == INODE_HASH_SIZE
    && (forall h, i :: 0 <= h < INODE_HASH_SIZE && 0 <= i < |chains[h]| ==>
          chains[h][i] in home && home[chains[h][i]] == h)
    && (forall node :: node in home ==> home[node] < INODE_HASH_SIZE && node in chains[home[node]])
  }

  lemma HomesRemove(chains: seq<seq<Node>>, home: map<Node, nat>, h: nat, node: Node, rest: seq<Node>)
    requires Homes(chains, home) && h < INODE_HASH_SIZE && (node in home ==> home[node] == h)
    requires forall x :: x in rest <==> x in chains[h] && x != node
    ensures Homes(chains[h := rest], home - {node})
  {
    var chains', home' := chains[h := rest], home - {node};
    forall g, i | 0 <= g < INODE_HASH_SIZE && 0 <= i < |chains'[g]|
      ensures chains'[g][i] in home' && home'[chains'[g][i]] == g
    {
      assert chains'[g][i] in chains[g];
    }
  }

  lemma HomesInsert(chains: seq<seq<Node>>, home: map<Node, nat>, h: nat, node: Node)
    requires Homes(chains, home) && h < INODE_HASH_SIZE && node !in home
    ensures node !in chains[h]
    ensures Homes(chains[h := [node] + chains[h]], home[node := h])
  {
    var chains', home' := chains[h := [node] + chains[h]], home[node := h];
    forall g, i | 0 <= g < INODE_HASH_SIZE && 0 <= i < |chains'[g]|
      ensures chains'[g][i] in home' && home'[chains'[g][i]] == g
    {
      if g == h && i > 0 {
        assert chains'[g][i] == chains[h][i - 1];
      }
    }
    forall x | x in home'
      ensures home'[x] < INODE_HASH_SIZE && x in chains'[home'[x]]
    {
      if x == node {
        assert chains'[h][0] == node;
      } else if home[x] == h {
        var k :| 0 <= k < |chains[h]| && chains[h][k] == x;
        assert chains'[h][k + 1] == x;
      }
    }
  }

  lemma HomesSize(chains: seq<seq<Node>>, home: map<Node, nat>)
    requires Homes(chains, home)
    ensures |chains| == INODE_HASH_SIZE
  {
  }

  lemma HomesMember(chains: seq<seq<Node>>, home: map<Node, nat>, h: nat, node: Node)
    requires Homes(chains, home) && h < INODE_HASH_SIZE && (node in home ==> home[node] == h)
    ensures node in chains[h] <==> node in home
    ensures forall x :: x in chains[h] ==> x in home.Keys
  {
  }

  lemma HomesApart(chains: seq<seq<Node>>, home: map<Node, nat>, g: nat, h: nat)
    requires Homes(chains, home) && g < INODE_HASH_SIZE && h < INODE_HASH_SIZE && g != h
    ensures forall i :: 0 <= i < |chains[g]| ==> chains[g][i] !in chains[h] && chains[g][i] in home.Keys
  {
  }

  class HashQueues {
    const hash: nat -> nat
    var hashQ: seq<Node?>
    ghost var chains: seq<seq<Node>>
    // The queue each hashed node is in.
    ghost var home: map<Node, nat>

    ghost predicate Valid()
      reads this, home.Keys`hashNext, home.Keys`hashPrev
    {
      && |hashQ| == INODE_HASH_SIZE
      && (forall n :: hash(n) < INODE_HASH_SIZE)
      && Homes(chains, home)
      && (forall h :: 0 <= h < INODE_HASH_SIZE ==> Chain(hashQ[h], chains[h]))
    }

    constructor (hash: nat -> nat)
      requires forall n :: hash(n) < INODE_HASH_SIZE
      ensures Valid() && home == map[] && this.hash == hash
    {
      this.hash := hash;
      hashQ := seq(INODE_HASH_SIZE, _ => null);
      chains := seq(INODE_HASH_SIZE, _ => []);
      home := map[];
    }

    // Takes a node out of the queue of its own inode's number; a node in no queue stays out.
    method RemoveFromHashQ(node: Node)
      requires Valid()
      requires node in home ==> home[node] == hash(node.inode.inodeNumber)
      requires node !in home ==> node.hashNext == null && node.hashPrev == null
      modifies this, home.Keys`hashNext, home.Keys`hashPrev, node`hashNext, node`hashPrev
      ensures Valid() && home == old(home) - {node}
      ensures node.hashNext == null && node.hashPrev == null
    {
      hide Homes;
      HomesSize(chains, home);
      var hashIndex := hash(node.inode.inodeNumber);
      ghost var s := chains[hashIndex];
      ghost var before, where, heads := chains, home, hashQ;
      HomesMember(chains, home, hashIndex, node);
      var head, rest := Unchain(hashQ[hashIndex], node, s);
      hashQ := hashQ[hashIndex := head];
      chains := chains[hashIndex := rest];
      home := home - {node};
      HomesRemove(before, where, hashIndex, node, rest);
      forall g | 0 <= g < INODE_HASH_SIZE
        ensures Chain(hashQ[g], chains[g])
      {
        if g != hashIndex {
          HomesApart(before, where, g, hashIndex);
          assert old(Chain(heads[g], before[g]));
          assert forall i :: 0 <= i < |before[g]| ==> before[g][i] != node;
          assert Chain(heads[g], before[g]);
        }
      }
    }

    // Puts a node that is in no queue in front of the queue of `iNodeNumber`.
    method InsertInHash(node: Node, iNodeNumber: nat)
      requires Valid() && node !in home
      modifies this, home.Keys`hashNext, home.Keys`hashPrev, node`hashNext, node`hashPrev
      ensures Valid() && home == old(home)[node := hash(iNodeNumber)]
    {
      hide Homes;
      HomesSize(chains, home);
      var hashIndex := hash(iNodeNumber);
      ghost var s := chains[hashIndex];
      ghost var before, where, heads := chains, home, hashQ;
      HomesMember(chains, home, hashIndex, node);
      HomesInsert(chains, home, hashIndex, node);
      ChainFirst(hashQ[hashIndex], node, s);
      hashQ := hashQ[hashIndex := node];
      chains := chains[hashIndex := [node] + s];
      home := home[node := hashIndex];
      forall g | 0 <= g < INODE_HASH_SIZE
        ensures Chain(hashQ[g], chains[g])
      {
        if g != hashIndex {
          HomesApart(before, where, g, hashIndex);
          assert old(Chain(heads[g], before[g]));
          assert forall i :: 0 <= i < |before[g]| ==> before[g][i] != node;
          assert Chain(heads[g], before[g]);
        }
      }
    }

    method UpdateInHashQ(node: Node, iNodeNumber: nat)
      requires Valid()
      requires node in home ==> home[node] == hash(node.inode.inodeNumber)
      requires node !in home ==> node.hashNext == null && node.hashPrev == null
      modifies this, home.Keys`hashNext, home.Keys`hashPrev, node`hashNext, node`hashPrev
      ensures Valid() && home == old(home)[node := hash(iNodeNumber)]
    {
      RemoveFromHashQ(node);
      InsertInHash(node, iNodeNumber);
    }

    // The hashed node of inode `iNodeNumber`, null if there is none in its queue.
    method HashLookup(iNodeNumber: nat) returns (found: Node?)
      requires Valid()
      ensures found != null ==> found in home && found.inode.inodeNumber == iNodeNumber
      ensures found == null ==>
                forall node :: node in home && home[node] == hash(iNodeNumber) ==> node.inode.inodeNumber != iNodeNumber
    {
      var hashNumber := hash(iNodeNumber);
      ghost var s := chains[hashNumber];
      ghost var at := 0;
      found := hashQ[hashNumber];
      while found != null
        invariant at <= |s| && (found == null <==> at == |s|) && (found != null ==> found == s[at])
        invariant forall i :: 0 <= i < at ==> s[i].inode.inodeNumber != iNodeNumber
        decreases |s| - at
      {
        if found.inode.inodeNumber == iNodeNumber {
          return;
        }
        found := found.hashNext;
        at := at + 1;
      }
    }
  }
}
