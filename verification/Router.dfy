/** The router's face manager, forwarder and command server, over the two tables. */
module Router {
  import opened Bytes
  import opened Descriptors
  import opened HopTable
  import opened Wire
  import opened RouterSpec
  import Fib
  import St
  import StRuns
  import CdUri

  /** Face ids are 64-bit. */
  const MAX_FACE_ID: nat := 0xFFFF_FFFF_FFFF_FFFF

  class FaceManager {
    var faceSerial: nat
    var faceTable: map<FaceId, Endpoint>
    var outbox: map<FaceId, seq<Packet>>   // all packets handed to each face's transport, in order

    constructor ()
      ensures faceSerial == FIRST_SERIAL && faceTable == map[] && outbox == map[]
    {
      faceSerial, faceTable, outbox := FIRST_SERIAL, map[], map[];
    }

    method CreateFaceId() returns (id: FaceId)
      modifies this`faceSerial
      ensures id == faceSerial == if old(faceSerial) < MAX_FACE_ID then old(faceSerial) + 1 else 0
    {
      faceSerial := if faceSerial < MAX_FACE_ID then faceSerial + 1 else 0;
      return faceSerial;
    }

    method CreateFace(e: Endpoint) returns (id: FaceId)
      modifies this
      ensures id == faceSerial == if old(faceSerial) < MAX_FACE_ID then old(faceSerial) + 1 else 0
      ensures faceTable == old(faceTable)[id := e] && outbox == old(outbox)[id := []]
    {
      id := CreateFaceId();
      faceTable, outbox := faceTable[id := e], outbox[id := []];
    }

    method Remove(id: FaceId)
      modifies this`faceTable
      ensures faceTable == old(faceTable) - {id}
    {
      faceTable := faceTable - {id};
    }

    method Find(id: FaceId) returns (found: bool)
      ensures found <==> id in faceTable
    {
      found := id in faceTable;
    }

    /** The first face with the endpoint, in the order of the ids. */
    method FindEndpoint(e: Endpoint) returns (face: Option<FaceId>)
      ensures face.None? ==> forall f :: f in faceTable ==> faceTable[f] != e
      ensures face.Some? ==> face.value in faceTable && faceTable[face.value] == e
                             && forall f :: f in faceTable && faceTable[f] == e ==> face.value <= f
    {
      var rest := faceTable.Keys;
      while rest != {}
        invariant rest <= faceTable.Keys
        invariant forall f :: f in faceTable && f !in rest ==> faceTable[f] != e
        decreases |rest|
      {
        var f := Fib.Least(rest);
        if faceTable[f] == e {
          return Some(f);
        }
        rest := rest - {f};
      }
      return None;
    }

    /** `Face::send` on a face of the table. */
    method Send(id: FaceId, p: Packet)
      requires id in outbox
      modifies this`outbox
      ensures outbox == old(outbox)[id := old(outbox)[id] + [p]]
    {
      outbox := outbox[id := outbox[id] + [p]];
    }
  }

  class Forwarder {
    const fib: Fib.Fib
    const st: St.St
    const faces: FaceManager

    /** The tables and faces as one value. */
    ghost function State(): Router
      reads fib, st, faces
      requires fib.Valid() && st.Valid()
    {
      RouterSpec.Router(st.Subs(), fib.Costs(), faces.faceTable, faces.faceSerial, faces.outbox)
    }

    ghost function Costs(): map<Pair, Fib.Cost>
      reads fib
      requires fib.Valid()
    {
      fib.Costs()
    }

    ghost predicate Valid()
      reads fib, st, faces
    {
      fib.Valid() && st.Valid() && RouterValid(State())
    }

    constructor (fib: Fib.Fib, st: St.St, faces: FaceManager)
      requires fib.Valid() && st.Valid()
      requires RouterValid(RouterSpec.Router(st.Subs(), fib.Costs(), faces.faceTable, faces.faceSerial, faces.outbox))
      ensures Valid() && this.fib == fib && this.st == st && this.faces == faces
    {
      this.fib, this.st, this.faces := fib, st, faces;
    }

    /** Send one copy of the packet to each of the faces that is in the table. */
    method SendToAll(ids: set<FaceId>, p: Packet)
      requires Valid()
      modifies faces`outbox
      ensures Valid() && State() == SendTo(old(State()), ids, p)
    {
      ghost var before := State();
      SendToKeeps(before, ids, p);
      SendToNone(before, p);
      var rest := ids;
      while rest != {}
        invariant rest <= ids
        invariant faces.outbox == SendTo(before, ids - rest, p).outbox
        modifies faces`outbox
        decreases |rest|
      {
        hide RouterValid, StRuns.Inv, TableValid, Rel, SendTo;
        var id := Fib.Least(rest);
        InOutbox(before, id);
        SendToOneMore(before, ids - rest, id, p);
        assert ids - (rest - {id}) == ids - rest + {id};
        var found := faces.Find(id);
        if found {
          assert id in SendTo(before, ids - rest, p).outbox by { SendToKeys(before, ids - rest, p); }
          faces.Send(id, p);
        }
        rest := rest - {id};
      }
      assert ids - rest == ids;
      assert State() == SendTo(before, ids, p);
    }

    /** Record the subscription with a new timer, and pass it on towards the rendezvous point. */
    method OnSubReceived(faceId: FaceId, sub: Cd)
      requires Valid() && faceId in faces.faceTable
      modifies st, faces`outbox
      ensures Valid() && State() == OnSub(old(State()), faceId, sub)
    {
      hide RouterValid, StRuns.Inv, StRuns.Step, TableValid, Rel, SendTo;
      ghost var before := State();
      SubKeeps(before, faceId, sub);
      StRuns.StepOnPairs(st.State(), StRuns.Add((sub, faceId)), st.expireTime);
      var doForward, cd := st.Add(sub, faceId);
      assert st.Subs() == before.subs + {(cd, faceId)};
      assert State() == before.(subs := before.subs + {(cd, faceId)});
      if doForward {
        var outFaceIds := fib.Match(cd);
        SendToAll(outFaceIds, Packet.Sub(cd));
      }
    }

    method OnPubToRpReceived(faceId: FaceId, cd: Cd, content: seq<Byte>)
      requires Valid()
      modifies faces`outbox
      ensures Valid() && State() == OnPubToRp(old(State()), cd, content)
    {
      var outFaceIds := fib.Match(cd);
      SendToAll(outFaceIds, PubToRp(cd, content));
    }

    method OnPubFromRpReceived(faceId: FaceId, cd: Cd, content: seq<Byte>)
      requires Valid() && St.AllHalt(st.Subs(), cd)
      modifies faces`outbox
      ensures Valid() && State() == OnPubFromRp(old(State()), cd, content)
    {
      var outFaceIds := st.Match(cd);
      SendToAll(outFaceIds, PubFromRp(cd, content));
    }

    /** Remove the face from both tables, then from the face table. */
    method OnFaceShutdown(faceId: FaceId)
      requires Valid()
      modifies fib, st, faces`faceTable
      ensures Valid() && State() == RouterSpec.OnFaceShutdown(old(State()), faceId)
    {
      hide RouterValid, StRuns.Inv, StRuns.Step, TableValid, Rel;
      ghost var before := State();
      ShutdownKeeps(before, faceId);
      StRuns.StepOnPairs(st.State(), StRuns.RemoveFace(faceId), st.expireTime);
      st.RemoveFace(faceId);
      fib.RemoveFace(faceId);
      faces.Remove(faceId);
      assert State() == RouterSpec.OnFaceShutdown(before, faceId);
    }

    /** A connection is accepted, or one the router opened succeeds. */
    method OnAccept(e: Endpoint) returns (id: FaceId)
      requires Valid() && faces.faceSerial < MAX_FACE_ID
      modifies faces
      ensures Valid() && State() == Accept(old(State()), e) && id == faces.faceSerial
    {
      AcceptKeeps(State(), e);
      id := faces.CreateFace(e);
    }

    // ---- Control commands

    /**
     * `fibAdd`: through a face with the endpoint if there is one. Otherwise, if a socket can be had, a UDP
     * face is created at once, and stays even when the name then is no descriptor; for TCP the router
     * starts to connect.
     */
    method FibAdd(name: seq<Byte>, e: Endpoint, cost: Fib.Cost, opens: bool) returns (outcome: Outcome)
      requires Valid() && faces.faceSerial < MAX_FACE_ID
      modifies fib, faces
      ensures Valid() && outcome == FibAddOutcome(old(State()), name, e, opens)
      ensures HasFace(old(State()), e) ==>
                exists f :: IsFaceOf(old(State()), e, f) && State() == FibAddVia(old(State()), name, f, cost)
      ensures !HasFace(old(State()), e) ==>
                State() == if e.typ.Udp? && opens
                           then FibAddVia(Accept(old(State()), e), name, old(faces.faceSerial) + 1, cost)
                           else old(State())
    {
      hide RouterValid, StRuns.Inv, TableValid, Rel, CdUri.UriMeaning;
      ghost var before := State();
      var face := faces.FindEndpoint(e);
      var ok := false;
      if face.Some? {
        FibAddKeeps(before, name, face.value, cost);
        ok := fib.Add(name, face.value, cost);
        assert IsFaceOf(before, e, face.value);
      } else if opens {
        if e.typ.Tcp? {
          return Connecting;
        }
        var id := OnAccept(e);
        FibAddKeeps(State(), name, id, cost);
        ok := fib.Add(name, id, cost);
      }
      outcome := if ok then Done else Refused;
    }

    /**
     * The connection for a `fibAdd` was made: a face is created for it and the command tried again. By now
     * another face may have the endpoint; the one with the smallest id is used.
     */
    method AddConnected(name: seq<Byte>, e: Endpoint, cost: Fib.Cost) returns (ok: bool)
      requires Valid() && faces.faceSerial < MAX_FACE_ID
      modifies fib, faces
      ensures Valid() && ok == CdUri.UriMeaning(name).Some?
      ensures exists f :: IsFaceOf(Accept(old(State()), e), e, f)
                          && State() == FibAddVia(Accept(old(State()), e), name, f, cost)
    {
      hide RouterValid, StRuns.Inv, TableValid, Rel, CdUri.UriMeaning;
      var id := OnAccept(e);
      ghost var accepted := State();
      assert accepted.faces[id] == e;
      var face := faces.FindEndpoint(e);
      FibAddKeeps(accepted, name, face.value, cost);
      ok := fib.Add(name, face.value, cost);
      assert IsFaceOf(accepted, e, face.value);
    }

    method FibDelName(name: seq<Byte>) returns (ok: bool)
      requires Valid()
      modifies fib
      ensures Valid() && ok == CdUri.UriMeaning(name).Some?
      ensures var was := old(State());
              State() == was.(costs := if ok then was.costs - OfCd(was.costs, CdUri.UriMeaning(name).value)
                                       else was.costs)
    {
      ghost var before := State();
      hide RouterValid, StRuns.Inv, TableValid, Rel, CdUri.UriMeaning;
      ok := fib.RemoveName(name);
      ShrinkKeeps(before, before.subs, Costs());
      assert State() == before.(subs := before.subs, costs := Costs());
    }

    method FibDel(name: seq<Byte>, e: Endpoint) returns (ok: bool)
      requires Valid()
      modifies fib
      ensures Valid()
      ensures ok <==> CdUri.UriMeaning(name).Some? && exists f :: f in faces.faceTable && faces.faceTable[f] == e
      ensures !ok ==> State() == old(State())
      ensures ok ==>
                exists f :: IsFaceOf(old(State()), e, f)
                            && Costs() == old(Costs()) - {(CdUri.UriMeaning(name).value, f)}
      ensures State() == old(State()).(costs := Costs())
    {
      hide RouterValid, StRuns.Inv, TableValid, Rel, CdUri.UriMeaning;
      ghost var before := State();
      var face := faces.FindEndpoint(e);
      if face.Some? {
        ok := fib.RemovePair(name, face.value);
        ShrinkKeeps(before, before.subs, Costs());
        assert State() == before.(subs := before.subs, costs := Costs());
        assert IsFaceOf(before, e, face.value);
      } else {
        ok := false;
      }
    }

    method FibClear()
      requires Valid()
      modifies fib
      ensures Valid() && State() == old(State()).(costs := map[])
    {
      ghost var before := State();
      ShrinkKeeps(before, before.subs, map[]);
      hide RouterValid, StRuns.Inv, TableValid, Rel;
      fib.Clear();
      assert State() == before.(subs := before.subs, costs := map[]);
    }

    method StDel()
      requires Valid()
      modifies st
      ensures Valid() && State() == old(State()).(subs := {})
    {
      ghost var before := State();
      ShrinkKeeps(before, {}, before.costs);
      StRuns.StepOnPairs(st.State(), StRuns.Clear, st.expireTime);
      hide RouterValid, StRuns.Inv, StRuns.Step, TableValid, Rel;
      st.Clear();
      assert st.Subs() == {};
      assert State() == before.(subs := {}, costs := before.costs);
    }

    /** A subscription's timer completion runs. */
    method OnExpired(t: StRuns.TimerId, aborted: bool)
      requires Valid() && (!aborted ==> StRuns.Enabled(st.State(), StRuns.Handle(t)))
      modifies st
      ensures Valid()
      ensures var was := old(State());
              State() == was.(subs := if aborted then was.subs else was.subs - {old(st.waits)[t].pair})
    {
      ghost var before := State();
      ghost var subs := if aborted then before.subs else before.subs - {st.waits[t].pair};
      ShrinkKeeps(before, subs, before.costs);
      if !aborted { StRuns.StepOnPairs(st.State(), StRuns.Handle(t), st.expireTime); }
      assert !aborted ==> t < |st.waits|;
      hide RouterValid, StRuns.Inv, StRuns.Step, TableValid, Rel;
      st.OnExpired(t, aborted);
      assert st.Subs() == subs;
      assert State() == before.(subs := subs, costs := before.costs);
    }
  }

  /** The rendezvous point's forwarder: it sends every publication back where it came from. */
  class RendezvousForwarder {
    const faces: FaceManager

    constructor (faces: FaceManager)
      ensures this.faces == faces
    {
      this.faces := faces;
    }

    method OnPubToRpReceived(faceId: FaceId, cd: Cd, content: seq<Byte>)
      requires forall f :: f in faces.faceTable ==> f in faces.outbox
      modifies faces`outbox
      ensures faces.outbox == if faceId in faces.faceTable
                              then old(faces.outbox)[faceId := old(faces.outbox)[faceId] + [PubFromRp(cd, content)]]
                              else old(faces.outbox)
    {
      var found := faces.Find(faceId);
      if found {
        faces.Send(faceId, PubFromRp(cd, content));
      }
    }

    method OnFaceShutdown(faceId: FaceId)
      modifies faces`faceTable
      ensures faces.faceTable == old(faces.faceTable) - {faceId}
    {
      faces.Remove(faceId);
    }
  }
}
