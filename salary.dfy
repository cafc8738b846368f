/**
 * The salary arithmetic: the bracket lookup over a loaded table, the
 * social-security (INSS) contribution with its ceiling, the income tax
 * (IRPF) on the gross pay after the contribution, the full breakdown of a
 * gross salary, and the request handler that reduces any one input to a
 * gross salary.
 */
module Salary {
  import opened Results
  import opened Misc

  // ---------------------------------------------------------------------
  // round(x, 2)
  // ---------------------------------------------------------------------

  /** Python 2's `round(x, 2)`: to the nearest cent, halves away from zero. */
  function Round2(x: real): real {
    if x >= 0.0 then ((x * 100.0 + 0.5).Floor as real) / 100.0
    else -((((-x) * 100.0 + 0.5).Floor as real) / 100.0)
  }

  /** `x` is a whole number of cents. */
  predicate Cents(x: real) {
    (x * 100.0).Floor as real == x * 100.0
  }

  /** The floor of a whole number plus a fraction below one is that number. */
  lemma FloorOf(n: int, f: real)
    requires 0.0 <= f < 1.0
    ensures (n as real + f).Floor == n
  {
  }

  lemma FloorMonotone(a: real, b: real)
    requires a <= b
    ensures a.Floor <= b.Floor
  {
  }

  lemma Round2Cents(x: real)
    ensures Cents(Round2(x))
    ensures -0.005 <= Round2(x) - x <= 0.005
  {
    var y := if x >= 0.0 then x else -x;
    var n := (y * 100.0 + 0.5).Floor;
    assert n as real <= y * 100.0 + 0.5 < n as real + 1.0;
    var r := (n as real) / 100.0;
    assert -0.005 <= r - y <= 0.005;
    var c := if x >= 0.0 then n else -n;
    assert Round2(x) == (c as real) / 100.0;
    FloorOf(c, 0.0);
  }

  /** Rounding leaves a whole number of cents alone. */
  lemma Round2Exact(x: real)
    requires Cents(x)
    ensures Round2(x) == x
  {
    var k := (x * 100.0).Floor;
    assert x * 100.0 == k as real;
    if x >= 0.0 {
      FloorOf(k, 0.5);
      assert x * 100.0 + 0.5 == k as real + 0.5;
    } else {
      FloorOf(-k, 0.5);
      assert (-x) * 100.0 + 0.5 == (-k) as real + 0.5;
    }
  }

  lemma Round2Monotone(x: real, y: real)
    requires x <= y
    ensures Round2(x) <= Round2(y)
  {
    if x >= 0.0 {
      FloorMonotone(x * 100.0 + 0.5, y * 100.0 + 0.5);
    } else if y < 0.0 {
      FloorMonotone((-y) * 100.0 + 0.5, (-x) * 100.0 + 0.5);
    }
  }

  lemma CentsDifference(a: real, b: real)
    requires Cents(a) && Cents(b)
    ensures Cents(a - b)
  {
    var n := (a * 100.0).Floor - (b * 100.0).Floor;
    assert (a - b) * 100.0 == n as real;
    FloorOf(n, 0.0);
  }

  // ---------------------------------------------------------------------
  // obtem_valores_tabela
  // ---------------------------------------------------------------------

  /** A table row: the bracket's floor and the tuple of values in force from it on. */
  datatype Entry = Entry(piso: real, values: seq<real>)

  type Table = seq<Entry>

  function Zeros(n: nat): (r: seq<real>)
    ensures |r| == n
    ensures forall i | 0 <= i < n :: r[i] == 0.0
  {
    if n == 0 then [] else Zeros(n - 1) + [0.0]
  }

  /** The `reduce`: each row whose floor the amount reaches replaces the running value. */
  function Pick(bruto: real, tabela: Table, val: seq<real>): seq<real>
    decreases |tabela|
  {
    if tabela == [] then val
    else Pick(bruto, tabela[1..], if bruto >= tabela[0].piso then tabela[0].values else val)
  }

  /** obtem_valores_tabela: IndexError on an empty table, else the reduce started from zeros. */
  function ObtemValoresTabela(bruto: real, tabela: Table): (r: Result<seq<real>>)
    ensures r.Err? <==> tabela == []
    ensures r.Err? ==> r.error == IndexError
  {
    if tabela == [] then Err(IndexError)
    else Ok(Pick(bruto, tabela, Zeros(|tabela[0].values|)))
  }

  /** The reduce yields the values of the last row (in table order) whose floor is reached, or its start value. */
  lemma {:induction false} PickLast(bruto: real, tabela: Table, val: seq<real>)
    ensures (forall i | 0 <= i < |tabela| :: tabela[i].piso > bruto) ==> Pick(bruto, tabela, val) == val
    ensures forall i | 0 <= i < |tabela| && tabela[i].piso <= bruto &&
                       (forall j | i < j < |tabela| :: tabela[j].piso > bruto) ::
              Pick(bruto, tabela, val) == tabela[i].values
    decreases |tabela|
  {
    if tabela != [] {
      var next := if bruto >= tabela[0].piso then tabela[0].values else val;
      var rest := tabela[1..];
      PickLast(bruto, rest, next);
      assert Pick(bruto, tabela, val) == Pick(bruto, rest, next);
      forall i | 0 <= i < |tabela| && tabela[i].piso <= bruto &&
                 (forall j | i < j < |tabela| :: tabela[j].piso > bruto)
        ensures Pick(bruto, tabela, val) == tabela[i].values
      {
        if i == 0 {
          assert forall k | 0 <= k < |rest| :: rest[k] == tabela[k + 1];
        } else {
          assert rest[i - 1] == tabela[i];
          assert forall j | i - 1 < j < |rest| :: rest[j] == tabela[j + 1];
        }
      }
      if forall i | 0 <= i < |tabela| :: tabela[i].piso > bruto {
        assert forall k | 0 <= k < |rest| :: rest[k] == tabela[k + 1];
      }
    }
  }

  /** Floors strictly increasing down the table, as in the loaded schedules. */
  predicate Ascending(tabela: Table) {
    forall i, j | 0 <= i < j < |tabela| :: tabela[i].piso < tabela[j].piso
  }

  /**
   * On an ascending table the lookup is the bracket holding the amount:
   * row i when its floor is reached and the next one's is not, zeros below
   * the first floor.
   */
  lemma ObtemValoresBracket(bruto: real, tabela: Table, i: nat)
    requires Ascending(tabela) && i < |tabela|
    requires tabela[i].piso <= bruto
    requires i + 1 == |tabela| || bruto < tabela[i + 1].piso
    ensures ObtemValoresTabela(bruto, tabela) == Ok(tabela[i].values)
  {
    PickLast(bruto, tabela, Zeros(|tabela[0].values|));
    assert forall j | i < j < |tabela| :: tabela[j].piso > bruto by {
      forall j | i < j < |tabela| ensures tabela[j].piso > bruto {
        if j > i + 1 {
          assert tabela[i + 1].piso < tabela[j].piso;
        }
      }
    }
  }

  lemma ObtemValoresBelow(bruto: real, tabela: Table)
    requires Ascending(tabela) && tabela != [] && bruto < tabela[0].piso
    ensures ObtemValoresTabela(bruto, tabela) == Ok(Zeros(|tabela[0].values|))
  {
    PickLast(bruto, tabela, Zeros(|tabela[0].values|));
    assert forall j | 0 < j < |tabela| :: tabela[0].piso < tabela[j].piso;
  }

  // ---------------------------------------------------------------------
  // inss_teto, inss, bruto_sem_inss2liquido
  // ---------------------------------------------------------------------

  /**
   * The contribution ceiling of one dated INSS table: the limit salary
   * times the last row's rate, less its deduction, rounded to the cent;
   * IndexError on an empty table or a row with fewer than two values.
   */
  function Teto(tabela: Table, limite: real): (r: Result<real>)
    ensures r.Err? <==> tabela == [] || |tabela[|tabela| - 1].values| < 2
    ensures r.Err? ==> r.error == IndexError
    ensures r.Ok? ==> Cents(r.value)
    ensures r.Ok? ==> var v := tabela[|tabela| - 1].values;
                      -0.005 <= r.value - (limite * v[0] - v[1]) <= 0.005
  {
    if tabela == [] || |tabela[|tabela| - 1].values| < 2 then Err(IndexError)
    else
      var v := tabela[|tabela| - 1].values;
      Round2Cents(limite * v[0] - v[1]);
      Ok(Round2(limite * v[0] - v[1]))
  }

  /** Python's two-argument `min`: the first unless the second is smaller. */
  function Min(a: real, b: real): real {
    if b < a then b else a
  }

  /** inss: the bracket's rate times the gross pay less its deduction, capped at the ceiling. */
  function Inss(bruto: real, tabela: Table, teto: real): (r: Result<real>)
    ensures tabela == [] ==> r == Err(IndexError)
    ensures tabela != [] && |ObtemValoresTabela(bruto, tabela).value| != 2 ==> r == Err(ValueError)
    ensures r.Ok? ==> r.value <= teto
    ensures r.Ok? <==> tabela != [] && |ObtemValoresTabela(bruto, tabela).value| == 2
    ensures r.Ok? ==> var v := ObtemValoresTabela(bruto, tabela).value;
                      r.value <= bruto * v[0] - v[1] &&
                      (r.value == teto || r.value == bruto * v[0] - v[1])
  {
    var v :- ObtemValoresTabela(bruto, tabela);
    if |v| != 2 then Err(ValueError)
    else Ok(Min(bruto * v[0] - v[1], teto))
  }

  /**
   * At the limit salary itself, inside the last bracket, the contribution
   * is within half a cent of the ceiling.
   */
  lemma InssAtLimit(tabela: Table, limite: real)
    requires Ascending(tabela) && tabela != [] && |tabela[|tabela| - 1].values| == 2
    requires tabela[|tabela| - 1].piso <= limite
    ensures Teto(tabela, limite).Ok?
    ensures Inss(limite, tabela, Teto(tabela, limite).value).Ok?
    ensures -0.005 <= Inss(limite, tabela, Teto(tabela, limite).value).value - Teto(tabela, limite).value <= 0.0
  {
    ObtemValoresBracket(limite, tabela, |tabela| - 1);
  }

  /** bruto_sem_inss2liquido: the base less the income tax its own bracket charges. */
  function BrutoSemInss2Liquido(bsi: real, irpf: Table): (r: Result<real>)
    ensures irpf == [] ==> r == Err(IndexError)
    ensures irpf != [] && |ObtemValoresTabela(bsi, irpf).value| != 2 ==> r == Err(ValueError)
    ensures r.Ok? <==> irpf != [] && |ObtemValoresTabela(bsi, irpf).value| == 2
    ensures r.Ok? ==> var v := ObtemValoresTabela(bsi, irpf).value;
                      r.value == bsi - (bsi * v[0] - v[1])
  {
    var v :- ObtemValoresTabela(bsi, irpf);
    if |v| != 2 then Err(ValueError)
    else Ok(bsi * (1.0 - v[0]) + v[1])
  }

  // ---------------------------------------------------------------------
  // todos_valores
  // ---------------------------------------------------------------------

  datatype Valores = Valores(
    bruto: real, brutoSemInss: real, liquido: real,
    inss: real, inssAliq: real, inssDeduzir: real,
    ir: real, irAliq: real, irDeduzir: real)

  /** Unpacks a looked-up tuple into a pair; ValueError on any other size. */
  function Pair(r: Result<seq<real>>): (p: Result<(real, real)>)
    ensures p.Ok? ==> r == Ok([p.value.0, p.value.1])
    ensures p.Err? ==> r.Err? || (r.Ok? && |r.value| != 2)
  {
    var v :- r;
    if |v| != 2 then Err(ValueError) else assert v == [v[0], v[1]]; Ok((v[0], v[1]))
  }

  /** todos_valores as written: the reported income-tax rate is looked up at the gross pay. */
  function TodosValoresAsWritten(bruto: real, inssTab: Table, teto: real, irpf: Table): (r: Result<Valores>)
    ensures r.Ok? ==> r.value.bruto == bruto
    ensures r.Ok? ==> ObtemValoresTabela(bruto, irpf) == Ok([r.value.irAliq, r.value.irDeduzir])
  {
    var valorInss :- Inss(bruto, inssTab, teto);
    var bsi := Round2(bruto - valorInss);
    var liq :- BrutoSemInss2Liquido(bsi, irpf);
    var liquido := Round2(liq);
    var ir :- Pair(ObtemValoresTabela(bruto, irpf));
    var inss := ObtemValoresTabela(bruto, inssTab).value;
    Ok(Valores(bruto, bsi, liquido, Round2(valorInss), inss[0], inss[1],
               Round2(bsi - liquido), ir.0, ir.1))
  }

  /** todos_valores, with the income-tax rate looked up at the base the tax is charged on. */
  function TodosValores(bruto: real, inssTab: Table, teto: real, irpf: Table): (r: Result<Valores>)
    ensures r.Ok? ==> r.value.bruto == bruto
    ensures inssTab == [] ==> r == Err(IndexError)
    ensures r.Ok? ==> ObtemValoresTabela(r.value.brutoSemInss, irpf) == Ok([r.value.irAliq, r.value.irDeduzir])
    ensures r.Ok? ==> ObtemValoresTabela(bruto, inssTab) == Ok([r.value.inssAliq, r.value.inssDeduzir])
    ensures r.Ok? ==> Inss(bruto, inssTab, teto).Ok? && BrutoSemInss2Liquido(r.value.brutoSemInss, irpf).Ok?
    ensures r.Ok? ==> var v := r.value;
      && v.inss == Round2(Inss(bruto, inssTab, teto).value)
      && v.brutoSemInss == Round2(bruto - Inss(bruto, inssTab, teto).value)
      && v.liquido == Round2(BrutoSemInss2Liquido(v.brutoSemInss, irpf).value)
      && v.ir == Round2(v.brutoSemInss - v.liquido)
  {
    var valorInss :- Inss(bruto, inssTab, teto);
    var bsi := Round2(bruto - valorInss);
    var liq :- BrutoSemInss2Liquido(bsi, irpf);
    var liquido := Round2(liq);
    var ir := ObtemValoresTabela(bsi, irpf).value;
    var inss := ObtemValoresTabela(bruto, inssTab).value;
    assert ir == [ir[0], ir[1]] && inss == [inss[0], inss[1]];
    Ok(Valores(bruto, bsi, liquido, Round2(valorInss), inss[0], inss[1],
               Round2(bsi - liquido), ir[0], ir[1]))
  }

  /**
   * Rounding each amount to the cent keeps the breakdown whole: tax plus
   * net is exactly the base, base plus contribution is the gross pay to
   * within a cent, and a contribution under a whole-cent ceiling stays
   * under it once rounded.
   */
  lemma RoundedBreakdown(bruto: real, contribution: real, net: real, teto: real)
    ensures var bsi := Round2(bruto - contribution);
            var liquido := Round2(net);
            && Round2(bsi - liquido) + liquido == bsi
            && -0.01 <= bsi + Round2(contribution) - bruto <= 0.01
            && (Cents(teto) && contribution <= teto ==> Round2(contribution) <= teto)
  {
    var bsi := Round2(bruto - contribution);
    var liquido := Round2(net);
    Round2Cents(bruto - contribution);
    Round2Cents(contribution);
    Round2Cents(net);
    CentsDifference(bsi, liquido);
    Round2Exact(bsi - liquido);
    if Cents(teto) && contribution <= teto {
      Round2Monotone(contribution, teto);
      Round2Exact(teto);
    }
  }

  /**
   * The breakdown adds up: tax plus net is exactly the base, base plus
   * contribution is the gross pay to within a cent, and the contribution
   * respects a whole-cent ceiling.
   */
  lemma TodosValoresAddsUp(bruto: real, inssTab: Table, teto: real, irpf: Table)
    requires TodosValores(bruto, inssTab, teto, irpf).Ok?
    ensures var v := TodosValores(bruto, inssTab, teto, irpf).value;
      && v.ir + v.liquido == v.brutoSemInss
      && -0.01 <= v.brutoSemInss + v.inss - bruto <= 0.01
      && (Cents(teto) ==> v.inss <= teto)
  {
    var v := TodosValores(bruto, inssTab, teto, irpf).value;
    RoundedBreakdown(bruto, Inss(bruto, inssTab, teto).value,
                     BrutoSemInss2Liquido(v.brutoSemInss, irpf).value, teto);
  }

  /**
   * The code as written and the corrected breakdown agree on every figure
   * but the reported income-tax rate and deduction.
   */
  lemma TodosValoresAgree(bruto: real, inssTab: Table, teto: real, irpf: Table)
    requires TodosValoresAsWritten(bruto, inssTab, teto, irpf).Ok?
    ensures TodosValores(bruto, inssTab, teto, irpf).Ok?
    ensures var v, w := TodosValoresAsWritten(bruto, inssTab, teto, irpf).value, TodosValores(bruto, inssTab, teto, irpf).value;
      v == w.(irAliq := v.irAliq, irDeduzir := v.irDeduzir)
  {
  }

  /** The breakdown todos_valores returns as written adds up as the corrected one does. */
  lemma TodosValoresAsWrittenAddsUp(bruto: real, inssTab: Table, teto: real, irpf: Table)
    requires TodosValoresAsWritten(bruto, inssTab, teto, irpf).Ok?
    ensures var v := TodosValoresAsWritten(bruto, inssTab, teto, irpf).value;
      && v.ir + v.liquido == v.brutoSemInss
      && -0.01 <= v.brutoSemInss + v.inss - bruto <= 0.01
      && (Cents(teto) ==> v.inss <= teto)
  {
    TodosValoresAgree(bruto, inssTab, teto, irpf);
    TodosValoresAddsUp(bruto, inssTab, teto, irpf);
  }

  /**
   * As written, the reported income-tax rate need not be the one the net
   * pay was computed with: a gross pay of 1050 under a flat 10%
   * contribution leaves a base of 945, below the 1000 floor of the 7.5%
   * bracket, so no tax is charged, yet 7.5% and its deduction are reported.
   */
  lemma TodosValoresRateMismatch()
    ensures var inssTab := [Entry(0.0, [0.1, 0.0])];
            var irpf := [Entry(0.0, [0.0, 0.0]), Entry(1000.0, [0.075, 75.0])];
            var w := TodosValoresAsWritten(1050.0, inssTab, 1000.0, irpf);
            && w.Ok?
            && w.value.ir == 0.0 && w.value.irAliq == 0.075
            && w.value.liquido != Round2(w.value.brutoSemInss * (1.0 - w.value.irAliq) + w.value.irDeduzir)
            && TodosValores(1050.0, inssTab, 1000.0, irpf).value.irAliq == 0.0
  {
    var inssTab := [Entry(0.0, [0.1, 0.0])];
    var irpf := [Entry(0.0, [0.0, 0.0]), Entry(1000.0, [0.075, 75.0])];
    ObtemValoresBracket(1050.0, inssTab, 0);
    assert Inss(1050.0, inssTab, 1000.0) == Ok(105.0);
    assert Round2(945.0) == 945.0;
    ObtemValoresBracket(945.0, irpf, 0);
    ObtemValoresBracket(1050.0, irpf, 1);
    assert BrutoSemInss2Liquido(945.0, irpf) == Ok(945.0);
    assert Round2(0.0) == 0.0;
    assert Round2(949.125) == 949.13;
  }

  // ---------------------------------------------------------------------
  // ajax_calc
  // ---------------------------------------------------------------------

  /** currency2float as the function applied to each request field; `parse` stands for `float()` on finite numerals. */
  function Currency2FloatReader(parse: string -> Result<real>): string -> Result<real> {
    raw => Currency2FloatValue(raw, "R$", 0.0, parse)
  }

  /** The list comprehension over liquido, bruto and bruto_sem_inss: the first failure wins. */
  function Fields(raw: seq<string>, read: string -> Result<real>): (r: Result<seq<real>>)
    ensures r.Ok? ==> |r.value| == |raw|
  {
    if raw == [] then Ok([])
    else
      var x :- read(raw[0]);
      var rest :- Fields(raw[1..], read);
      Ok([x] + rest)
  }

  /** Each number read is its own field's reading, and a failure is that of the first field that fails. */
  lemma {:induction false} FieldsPointwise(raw: seq<string>, read: string -> Result<real>)
    ensures var r := Fields(raw, read);
      (r.Ok? ==> forall i | 0 <= i < |raw| :: read(raw[i]) == Ok(r.value[i]))
      && (r.Err? ==> exists i | 0 <= i < |raw| :: read(raw[i]) == Err(r.error)
                                                 && forall j | 0 <= j < i :: read(raw[j]).Ok?)
  {
    if raw != [] {
      var rest := raw[1..];
      FieldsPointwise(rest, read);
      var r := Fields(raw, read);
      var head := read(raw[0]);
      if head.Err? {
        assert r == Err(head.error);
      } else if Fields(rest, read).Err? {
        var j :| 0 <= j < |rest| && read(rest[j]) == Err(Fields(rest, read).error)
                 && forall m | 0 <= m < j :: read(rest[m]).Ok?;
        assert raw[j + 1] == rest[j];
        assert forall m | 1 <= m < j + 1 :: raw[m] == rest[m - 1];
      } else {
        var v := Fields(rest, read).value;
        assert r.value == [head.value] + v;
        forall i | 0 <= i < |raw| ensures read(raw[i]) == Ok(r.value[i]) {
          if i > 0 {
            assert raw[i] == rest[i - 1];
          }
        }
      }
    }
  }

  function NonZero(xs: seq<real>): nat {
    if xs == [] then 0 else (if xs[0] != 0.0 then 1 else 0) + NonZero(xs[1..])
  }

  datatype Reply =
    | BadNumber             // "Valor numérico fornecido não reconhecido"
    | OnlyOne               // "Use apenas um entre liquido, bruto ou bruto_sem_inss"
    | Computed(v: Valores)

  /** The two numerical inverses, solved by the root finder; None when it does not converge. */
  function Solve(x: Option<real>): Result<real> {
    match x
    case Some(y) => Ok(y)
    case None => Err(NoConvergence)
  }

  /**
   * The computing half of ajax_calc, once the three numbers are read:
   * more than one non-zero input is rejected before anything is solved; a
   * net pay is first turned into a base, a base into a gross pay, and the
   * gross pay rounded to the cent is broken down.
   */
  function Dispatch(valores: seq<real>, liq2bsi: real -> Option<real>, bsi2bruto: real -> Option<real>,
                    inssTab: Table, teto: real, irpf: Table): (r: Result<Reply>)
    requires |valores| == 3
    ensures NonZero(valores) > 1 <==> r == Ok(OnlyOne)
    ensures r.Ok? ==> r.value != BadNumber
  {
    if NonZero(valores) > 1 then Ok(OnlyOne)
    else
      var liquido, bruto, bsi0 := valores[0], valores[1], valores[2];
      var bsi :- if liquido != 0.0 then (var b :- Solve(liq2bsi(liquido)); Ok(Round2(b))) else Ok(bsi0);
      var gross :- if liquido != 0.0 || bsi != 0.0 then Solve(bsi2bruto(bsi)) else Ok(bruto);
      var v :- TodosValores(Round2(gross), inssTab, teto, irpf);
      Ok(Computed(v))
  }

  /** ajax_calc: an unreadable number is answered with BadNumber, anything else goes on to Dispatch. */
  function AjaxCalc(raw: seq<string>, parse: string -> Result<real>,
                    liq2bsi: real -> Option<real>, bsi2bruto: real -> Option<real>,
                    inssTab: Table, teto: real, irpf: Table): (r: Result<Reply>)
    requires |raw| == 3
    ensures r == Ok(BadNumber) <==> Fields(raw, Currency2FloatReader(parse)) == Err(ValueError)
    ensures Fields(raw, Currency2FloatReader(parse)).Ok? ==> r == Dispatch(Fields(raw, Currency2FloatReader(parse)).value, liq2bsi, bsi2bruto, inssTab, teto, irpf)
  {
    match Fields(raw, Currency2FloatReader(parse))
    case Err(e) => if e == ValueError then Ok(BadNumber) else Err(e)
    case Ok(valores) => Dispatch(valores, liq2bsi, bsi2bruto, inssTab, teto, irpf)
  }

  /** A gross pay given alone is broken down directly, without either inverse. */
  lemma DispatchBruto(liq2bsi: real -> Option<real>, bsi2bruto: real -> Option<real>,
                      inssTab: Table, teto: real, irpf: Table, bruto: real)
    ensures Dispatch([0.0, bruto, 0.0], liq2bsi, bsi2bruto, inssTab, teto, irpf) ==
            (var v :- TodosValores(Round2(bruto), inssTab, teto, irpf); Ok(Computed(v)))
  {
    assert NonZero([0.0, bruto, 0.0]) == NonZero([bruto, 0.0]) == NonZero([0.0]) + (if bruto != 0.0 then 1 else 0);
  }

  /** A base given alone skips the first inverse and goes through the second. */
  lemma DispatchBrutoSemInss(liq2bsi: real -> Option<real>, bsi2bruto: real -> Option<real>,
                             inssTab: Table, teto: real, irpf: Table, bsi: real)
    requires bsi != 0.0
    ensures bsi2bruto(bsi).None? ==> Dispatch([0.0, 0.0, bsi], liq2bsi, bsi2bruto, inssTab, teto, irpf) == Err(NoConvergence)
    ensures bsi2bruto(bsi).Some? ==>
      Dispatch([0.0, 0.0, bsi], liq2bsi, bsi2bruto, inssTab, teto, irpf) ==
      (var v :- TodosValores(Round2(bsi2bruto(bsi).value), inssTab, teto, irpf); Ok(Computed(v)))
  {
    assert NonZero([0.0, 0.0, bsi]) == NonZero([0.0, bsi]) == NonZero([bsi]) == 1;
  }

  /** A net pay given alone goes through both inverses, the base rounded to the cent in between. */
  lemma DispatchLiquido(liq2bsi: real -> Option<real>, bsi2bruto: real -> Option<real>,
                        inssTab: Table, teto: real, irpf: Table, liquido: real, bsi: real, bruto: real)
    requires liquido != 0.0
    requires liq2bsi(liquido) == Some(bsi) && bsi2bruto(Round2(bsi)) == Some(bruto)
    ensures Dispatch([liquido, 0.0, 0.0], liq2bsi, bsi2bruto, inssTab, teto, irpf) ==
            (var v :- TodosValores(Round2(bruto), inssTab, teto, irpf); Ok(Computed(v)))
  {
    assert NonZero([liquido, 0.0, 0.0]) == 1 + NonZero([0.0, 0.0]);
  }
}
