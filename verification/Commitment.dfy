/** Identity commitments: the secret key is accepted only in its canonical field form. */
module Commitment {
  import opened ByteInts
  import opened HexText
  import opened ScalarField
  import opened Wrappers

  datatype RoleCode = Human | AiAgent | Collective | Bridge | Service {
    function AsField(): Fr {
      match this
      case Human => 1
      case AiAgent => 2
      case Collective => 3
      case Bridge => 4
      case Service => 5
    }
  }

  type NodeId = n: nat | n < 0x1_0000_0000_0000_0000

  type Hash3 = (Fr, Fr, Fr) -> Fr

  function Padded(bytes: Bytes): (padded: Bytes)
    requires |bytes| <= 32
    ensures |padded| == 32
  {
    ZeroBytes(32 - |bytes|) + bytes
  }

  /** `hash` is Poseidon on three inputs. */
  function GenerateCommitment(hash: Hash3, skHex: string, role: RoleCode, nodeId: NodeId): Result<string, HexError> {
    match Decode(skHex)
    case Err(e) => Err(InvalidHex)
    case Ok(skBytes) =>
      if |skBytes| < 16 || |skBytes| > 32 then Err(InvalidHex)
      else
        var sk := FromBytesModOrder(skBytes);
        if Padded(skBytes) != ToBytes(sk) then Err(InvalidHex)
        else Ok(ToHex(hash(sk, role.AsField(), nodeId)))
  }

  /** The canonical check compares bytes; it holds exactly when no reduction happened. */
  lemma CanonicalExactly(bytes: Bytes)
    requires |bytes| <= 32
    ensures Padded(bytes) == ToBytes(FromBytesModOrder(bytes)) <==> BigEndian(bytes) < MODULUS
  {
    var padded, x := Padded(bytes), FromBytesModOrder(bytes);
    assert padded == ZeroBytes(32 - |bytes|) + bytes;
    ToBytesUnfold(x);
    ReducedExactly(bytes);
    hide *;
    LeadingZeros(32 - |bytes|, bytes);
    BytesRoundTrip(x);
    ToBigEndianOfBigEndian(padded);
  }

  /** A key is accepted exactly when it is hexadecimal of either case for 16 to 32 bytes whose big-endian
      value is below the field modulus; role and node never matter. */
  lemma AcceptedExactly(hash: Hash3, skHex: string, role: RoleCode, nodeId: NodeId)
    ensures GenerateCommitment(hash, skHex, role, nodeId).Ok? <==>
      && |skHex| % 2 == 0 && IsHex(skHex)
      && 32 <= |skHex| <= 64
      && BigEndian(Decode(skHex).value) < MODULUS
  {
    hide BigEndian, ToBytes, ToHex, FromBytesModOrder, Padded;
    if Decode(skHex).Ok? && 32 <= |skHex| <= 64 {
      CanonicalExactly(Decode(skHex).value);
    }
  }

  /** The commitment is 64 lower-case digits for the hash of the key's value, the role's number and the node. */
  lemma CommitmentText(hash: Hash3, skHex: string, role: RoleCode, nodeId: NodeId)
    requires GenerateCommitment(hash, skHex, role, nodeId).Ok?
    ensures var text := GenerateCommitment(hash, skHex, role, nodeId).value;
      && |text| == 64 && IsLowerHex(text) && IsHex(text)
      && IsHex(skHex) && HexValue(skHex) < MODULUS
      && HexValue(text) == hash(HexValue(skHex),
           match role { case Human => 1 case AiAgent => 2 case Collective => 3 case Bridge => 4 case Service => 5 },
           nodeId)
  {
    AcceptedExactly(hash, skHex, role, nodeId);
    hide Decode, BigEndian, ToBytes, FromBytesModOrder, Encode, IsHex, IsLowerHex, HexValue, Padded;
    var bytes := Decode(skHex).value;
    DecodedValue(skHex);
    ReducedExactly(bytes);
    var value := hash(BigEndian(bytes), role.AsField(), nodeId);
    EncodeIsLowerHex(ToBytes(value));
    EncodeKeepsValue(ToBytes(value));
    BytesRoundTrip(value);
  }

  /** Two accepted keys give the same commitment when value, role and node agree; when anything differs,
      equal commitments are a collision of the hash itself, never an effect of reduction, padding, letter
      case or the text encoding. */
  lemma CommitmentBinds(
    hash: Hash3, sk1: string, role1: RoleCode, node1: NodeId, sk2: string, role2: RoleCode, node2: NodeId)
    requires GenerateCommitment(hash, sk1, role1, node1).Ok?
    requires GenerateCommitment(hash, sk2, role2, node2).Ok?
    ensures var v1, v2 := BigEndian(Decode(sk1).value), BigEndian(Decode(sk2).value);
      && v1 < MODULUS && v2 < MODULUS
      && ((v1, role1, node1) == (v2, role2, node2) ==>
            GenerateCommitment(hash, sk1, role1, node1) == GenerateCommitment(hash, sk2, role2, node2))
      && (GenerateCommitment(hash, sk1, role1, node1) == GenerateCommitment(hash, sk2, role2, node2) ==>
            hash(v1, role1.AsField(), node1) == hash(v2, role2.AsField(), node2))
      && ((v1, role1.AsField(), node1) == (v2, role2.AsField(), node2) <==> (v1, role1, node1) == (v2, role2, node2))
  {
    AcceptedExactly(hash, sk1, role1, node1);
    AcceptedExactly(hash, sk2, role2, node2);
    hide Decode, BigEndian, ToBytes, ToHex, Padded;
    var h1 := hash(BigEndian(Decode(sk1).value), role1.AsField(), node1);
    var h2 := hash(BigEndian(Decode(sk2).value), role2.AsField(), node2);
    if ToHex(h1) == ToHex(h2) {
      ToHexInjective(h1, h2);
    }
  }
}
