/** The placeholder tokens that stand in a message for out-of-band content:
    `[[code<n>]]` for a code snippet and `[[img<n>]]` for an image. The browser client
    allocates both kinds; the server writes `[[img<n>]]` for Markdown images. */
module Tokens {
  import opened Strings

  /** `[[code${n}]]`. */
  function CodeToken(n: nat): string
  {
    "[[code" + NatToString(n) + "]]"
  }

  /** How every image token begins. */
  const ImgOpen: string := "[[img"

  /** `[[img${n}]]` in the client, f"[[img{n}]]" on the server. */
  function ImgToken(n: nat): string
  {
    "[[img" + NatToString(n) + "]]"
  }

  /** An image token opens with `[[img`; after its first two characters it holds no `[`,
      and it holds no `)` at all. */
  lemma ImgTokenShape(n: nat)
    ensures IsPrefix(ImgOpen, ImgToken(n)) && 8 <= |ImgToken(n)|
    ensures ImgToken(n)[0] == '[' && ImgToken(n)[1] == '['
    ensures forall i :: 2 <= i < |ImgToken(n)| ==> ImgToken(n)[i] != '[' && ImgToken(n)[i] != ')'
  {
    var t, d := ImgToken(n), NatToString(n);
    assert t[..5] == ImgOpen;
    forall i | 5 <= i < 5 + |d| ensures t[i] != '[' && t[i] != ')' {
      assert t[i] == d[i - 5];
    }
  }

  /** No image token other than `ImgToken(c)` itself starts inside `ImgToken(c)`. */
  lemma ImgTokenSkip(j: nat, c: nat, rest: string)
    requires j != c
    ensures NoneStartsBefore(ImgToken(j), ImgToken(c) + rest, |ImgToken(c)|)
  {
    var tj, tc := ImgToken(j), ImgToken(c);
    var s := tc + rest;
    ImgTokenShape(j);
    ImgTokenShape(c);
    forall i | 0 <= i < |tc| ensures !StartsAt(tj, s, i) {
      if i == 0 {
        assert s[0..] == s;
        if IsPrefix(tj, s) {
          ImgTokenAtImgToken(j, c, rest);
        }
      } else if i == 1 {
        assert s[i..][1] == tc[2] != tj[1];
      } else {
        assert s[i..][0] == tc[i] != tj[0];
      }
    }
  }

  /** Code tokens with different numbers differ. */
  lemma CodeTokenInjective(a: nat, b: nat)
    requires CodeToken(a) == CodeToken(b)
    ensures a == b
  {
    var ta := CodeToken(a);
    assert NatToString(a) == ta[6..|ta| - 2];
    assert NatToString(b) == ta[6..|ta| - 2];
    NatToStringInjective(a, b);
  }

  /** Image tokens with different numbers differ. */
  lemma ImgTokenInjective(a: nat, b: nat)
    requires ImgToken(a) == ImgToken(b)
    ensures a == b
  {
    var ta := ImgToken(a);
    assert NatToString(a) == ta[5..|ta| - 2];
    assert NatToString(b) == ta[5..|ta| - 2];
    NatToStringInjective(a, b);
  }

  /** A code token is never an image token. */
  lemma CodeIsNotImg(a: nat, b: nat)
    ensures CodeToken(a) != ImgToken(b)
  {
    assert CodeToken(a)[2] == 'c';
    assert ImgToken(b)[2] == 'i';
  }

  /** No image token begins a text that begins with a different image token: the
      numeral is followed by `]]`, which no digit matches. */
  lemma ImgTokenAtImgToken(j: nat, n: nat, rest: string)
    requires IsPrefix(ImgToken(j), ImgToken(n) + rest)
    ensures j == n
  {
    var dj, dn := NatToString(j), NatToString(n);
    var text := ImgToken(n) + rest;
    assert ImgToken(j) == text[..|ImgToken(j)|];
    // Where the shorter numeral ends, one text holds `]` and the other a digit unless
    // the numerals have the same length.
    var k := Min(|dj|, |dn|);
    assert ImgToken(j)[5 + k] == text[5 + k];
    assert |dj| == |dn|;
    assert dj == ImgToken(j)[5..5 + |dj|] == text[5..5 + |dn|] == dn;
    NatToStringInjective(j, n);
  }

  /** The tokens allocated since the last reset, when the next code number is `codeNext`
      and the next image number is `imgNext` (numbering starts at 1). */
  ghost function Allocated(codeNext: nat, imgNext: nat): set<string>
  {
    (set n: nat | 1 <= n < codeNext :: CodeToken(n)) + (set n: nat | 1 <= n < imgNext :: ImgToken(n))
  }

  /** The next code token has not been handed out yet. */
  lemma NextCodeTokenIsFresh(codeNext: nat, imgNext: nat)
    ensures CodeToken(codeNext) !in Allocated(codeNext, imgNext)
  {
    if CodeToken(codeNext) in Allocated(codeNext, imgNext) {
      if n: nat :| 1 <= n < codeNext && CodeToken(n) == CodeToken(codeNext) {
        CodeTokenInjective(n, codeNext);
      } else {
        var m: nat :| 1 <= m < imgNext && ImgToken(m) == CodeToken(codeNext);
        CodeIsNotImg(codeNext, m);
      }
    }
  }

  /** The next image token has not been handed out yet. */
  lemma NextImgTokenIsFresh(codeNext: nat, imgNext: nat)
    ensures ImgToken(imgNext) !in Allocated(codeNext, imgNext)
  {
    if ImgToken(imgNext) in Allocated(codeNext, imgNext) {
      if n: nat :| 1 <= n < imgNext && ImgToken(n) == ImgToken(imgNext) {
        ImgTokenInjective(n, imgNext);
      } else {
        var m: nat :| 1 <= m < codeNext && CodeToken(m) == ImgToken(imgNext);
        CodeIsNotImg(m, imgNext);
      }
    }
  }

  /** Handing out a code token adds exactly that token. */
  lemma AllocateCode(codeNext: nat, imgNext: nat)
    requires 1 <= codeNext
    ensures Allocated(codeNext + 1, imgNext) == Allocated(codeNext, imgNext) + {CodeToken(codeNext)}
  {
  }

  /** Handing out an image token adds exactly that token. */
  lemma AllocateImg(codeNext: nat, imgNext: nat)
    requires 1 <= imgNext
    ensures Allocated(codeNext, imgNext + 1) == Allocated(codeNext, imgNext) + {ImgToken(imgNext)}
  {
  }
}
