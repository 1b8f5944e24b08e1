"""Writes the modules that follow SHA-1 through a block: `python3 traces.py` rewrites Trace*.dfy.

Each module states every word of the schedule and the working variables after every fourth round as
literals, which Dafny then checks against the definitions of FIPS 180-4.
"""

import struct

INITIAL = [0x67452301, 0xEFCDAB89, 0x98BADCFE, 0x10325476, 0xC3D2E1F0]
MAGIC = b"258EAFA5-E914-47DA-95CA-C5AB0DC85B11"


def rotated(x, n):
    return (x << n | x >> (32 - n)) & 0xFFFFFFFF


def padded(message):
    zeros = bytes((55 - len(message)) % 64)
    return message + b"\x80" + zeros + struct.pack(">Q", 8 * len(message))


def schedule(block):
    w = list(struct.unpack(">16I", block))
    for t in range(16, 80):
        w.append(rotated(w[t - 3] ^ w[t - 8] ^ w[t - 14] ^ w[t - 16], 1))
    return w


def rounds(before, w):
    states = [tuple(before)]
    for t in range(80):
        a, b, c, d, e = states[-1]
        f, k = [
            (b & c ^ ~b & d, 0x5A827999),
            (b ^ c ^ d, 0x6ED9EBA1),
            (b & c ^ b & d ^ c & d, 0x8F1BBCDC),
            (b ^ c ^ d, 0xCA62C1D6),
        ][t // 20]
        states.append(((rotated(a, 5) + f + e + k + w[t]) & 0xFFFFFFFF, a, rotated(b, 30), c, d))
    return states


def words(values):
    return ", ".join("0x%08x" % x for x in values)


def working(state):
    return "Working(%s)" % words(state)


def module(name, comment, before, block):
    w = schedule(block)
    v = rounds(before, w)
    after = [(x + y) & 0xFFFFFFFF for x, y in zip(before, v[80])]
    out = ["/** %s */" % comment, "module %s {" % name, "  import opened Sha1Spec", "  import opened Traces", ""]
    out += ["  const BEFORE: Hash := [%s]" % words(before), "  const AFTER: Hash := [%s]" % words(after), ""]
    for t in range(0, 80, 16):
        out += ["  const ROW%d: seq<Word> := [" % t]
        out += ["    %s," % words(w[t : t + 8]), "    %s]" % words(w[t + 8 : t + 16]), ""]
    out += ["  const V%d := %s" % (t, working(v[t])) for t in range(0, 96, 16)]
    for t in range(16, 80, 16):
        out += ["", "  lemma Words%d()" % t]
        for i in range(t, t + 16):
            sources = words([w[i - 3], w[i - 8], w[i - 14], w[i - 16]])
            out += ["    ensures RotL(Xor(%s), 1) == %s" % (sources, words([w[i]]))]
        out += ["  {", "  }"]
        for low in (0, 8):
            out += ["", "  lemma Row%dFrom%d()" % (t, low)]
            out += ["    ensures forall i :: %d <= i < %d ==> FollowsAt(ROW%d, ROW%d, i)" % (low, low + 8, t - 16, t)]
            out += ["  {", "    hide Xor, RotL;", "    Words%d();" % t]
            for i in range(low, low + 8, 2):
                facts = ["FollowsAt(ROW%d, ROW%d, %d)" % (t - 16, t, j) for j in (i, i + 1)]
                out += ["    assert %s;" % " && ".join(facts)]
            out += ["  }"]
    for t in range(0, 80, 4):
        out += ["", "  lemma Rounds%d()" % t]
        out += ["    ensures Four(%s, %d," % (working(v[t]), t), "                 %s)" % words(w[t : t + 4])]
        out += ["         == %s" % working(v[t + 4]), "  {", "  }"]
    for t in range(0, 80, 16):
        out += ["", "  lemma Sixteen%d()" % t, "    ensures Sixteen(V%d, %d, ROW%d) == V%d" % (t, t, t, t + 16)]
        out += ["  {", "    hide Four;"] + ["    Rounds%d();" % i for i in range(t, t + 16, 4)] + ["  }"]
    out += ["", "  lemma Sums()"]
    for i, field in enumerate("abcde"):
        out += ["    ensures Add(BEFORE[%d], V80.%s) == AFTER[%d]" % (i, field, i)]
    out += ["  {", "  }", "", "  lemma CompressedBlock()", "    ensures Compress(BEFORE, ROW0) == AFTER", "  {"]
    out += ["    Row%dFrom%d();" % (t, low) for t in range(16, 80, 16) for low in (0, 8)]
    out += ["    Sixteen%d();" % t for t in range(0, 80, 16)]
    out += ["    Sums();", "    hide FollowsAt, Sixteen, Compress, Add;"]
    out += ["    CompressedRows(BEFORE, ROW0, ROW16, ROW32, ROW48, ROW64, V0, V16, V32, V48, V64, V80);"]
    out += ["  }", "}", ""]
    with open(name + ".dfy", "w") as file:
        file.write("\n".join(out))
    return after


block = padded(b"l" + MAGIC)
module("TraceOfL", "The block of the key `l` and the magic string.", INITIAL, block)
blocks = padded(b"dGhlIHNhbXBsZSBub25jZQ==" + MAGIC)
middle = module("TraceOfSample0", "The first block of the sample key of section 1.3 of RFC 6455 and the magic string.",
                INITIAL, blocks[:64])
module("TraceOfSample1", "The second block of the same message, which holds only padding.", middle, blocks[64:])
